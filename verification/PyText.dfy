/** Python's string operations, as far as the modelled scripts use them. */
module PyText {
  import opened Common

  /** The characters `str.strip` removes (`str.isspace` on one character). */
  predicate IsSpace(c: char) {
    || '\t' <= c <= '\r' || '\U{1C}' <= c <= ' ' || c == '\U{85}' || c == '\U{A0}' || c == '\U{1680}'
    || '\U{2000}' <= c <= '\U{200A}' || c == '\U{2028}' || c == '\U{2029}' || c == '\U{202F}'
    || c == '\U{205F}' || c == '\U{3000}'
  }

  function Lstrip(s: string): string {
    if s != "" && IsSpace(s[0]) then Lstrip(s[1..]) else s
  }

  function Rstrip(s: string): string {
    if s != "" && IsSpace(s[|s| - 1]) then Rstrip(s[..|s| - 1]) else s
  }

  function Strip(s: string): string {
    Rstrip(Lstrip(s))
  }

  /** `s.rstrip(";")` */
  function RstripSemicolons(s: string): string {
    if s != "" && s[|s| - 1] == ';' then RstripSemicolons(s[..|s| - 1]) else s
  }

  /** `s.rstrip().endswith(";")` */
  predicate EndsStatement(s: string) {
    var r := Rstrip(s);
    r != "" && r[|r| - 1] == ';'
  }

  predicate OccursAt(s: string, sub: string, k: int) {
    0 <= k && k + |sub| <= |s| && s[k..k + |sub|] == sub
  }

  /** `s.find(sub)`: the first occurrence, or None. */
  function Find(s: string, sub: string): (r: Option<nat>)
    ensures r.Some? ==> OccursAt(s, sub, r.value) && forall k :: 0 <= k < r.value ==> !OccursAt(s, sub, k)
    ensures r.None? ==> forall k :: !OccursAt(s, sub, k)
  {
    FindFrom(s, sub, 0)
  }

  function FindFrom(s: string, sub: string, start: nat): (r: Option<nat>)
    requires forall k :: 0 <= k < start ==> !OccursAt(s, sub, k)
    ensures r.Some? ==> OccursAt(s, sub, r.value) && forall k :: 0 <= k < r.value ==> !OccursAt(s, sub, k)
    ensures r.None? ==> forall k :: !OccursAt(s, sub, k)
    decreases |s| - start
  {
    if start + |sub| > |s| then None
    else if OccursAt(s, sub, start) then Some(start)
    else FindFrom(s, sub, start + 1)
  }

  /** A character not in `a` is first found right after it. */
  lemma FindChar(a: string, c: char, b: string)
    requires c !in a
    ensures Find(a + ([c] + b), [c]) == Some(|a|)
    ensures Find(a, [c]) == None
  {
    var s := a + ([c] + b);
    assert s[|a|..|a| + 1] == [c];
    assert OccursAt(s, [c], |a|);
    forall k | 0 <= k < |a|
      ensures !OccursAt(s, [c], k) && !OccursAt(a, [c], k)
    {
      assert s[k..k + 1][0] == a[k] && a[k..k + 1][0] == a[k];
    }
  }

  predicate IsDigit(c: char) { '0' <= c <= '9' }

  function LowerChar(c: char): char {
    if 'A' <= c <= 'Z' then c - 'A' + 'a' else c
  }

  /** `str.lower` on ASCII text. */
  function Lower(s: string): string {
    Map(LowerChar, s)
  }

  /** Trailing whitespace cannot change whether the text ends a statement. */
  lemma {:induction false} BlankTailEndsNothing(s: string, tail: string)
    requires forall c :: c in tail ==> IsSpace(c)
    ensures Rstrip(s + tail) == Rstrip(s)
    decreases |tail|
  {
    if tail == "" {
      assert s + tail == s;
    } else {
      var t := s + tail;
      assert t[|t| - 1] == tail[|tail| - 1];
      assert tail[|tail| - 1] in tail;
      assert t[..|t| - 1] == s + tail[..|tail| - 1];
      BlankTailEndsNothing(s, tail[..|tail| - 1]);
    }
  }

  /** A text with a non-blank tail ends a statement exactly when that tail does. */
  lemma {:induction false} TailDecides(s: string, tail: string)
    requires exists i :: 0 <= i < |tail| && !IsSpace(tail[i])
    ensures Rstrip(s + tail) == s + Rstrip(tail) && Rstrip(tail) != ""
    decreases |tail|
  {
    var t := s + tail;
    assert t[|t| - 1] == tail[|tail| - 1];
    if IsSpace(tail[|tail| - 1]) {
      var i :| 0 <= i < |tail| && !IsSpace(tail[i]);
      assert tail[..|tail| - 1][i] == tail[i];
      TailDecides(s, tail[..|tail| - 1]);
      assert t[..|t| - 1] == s + tail[..|tail| - 1];
    }
  }

  lemma BlankLineDecides(s: string, line: string)
    requires forall c :: c in line ==> IsSpace(c)
    requires !EndsStatement(s)
    ensures !EndsStatement(s + line) && !EndsStatement(line)
  {
    BlankTailEndsNothing(s, line);
    BlankTailEndsNothing("", line);
    assert "" + line == line;
  }

  lemma SolidLineDecides(s: string, line: string)
    requires exists i :: 0 <= i < |line| && !IsSpace(line[i])
    ensures EndsStatement(s + line) <==> EndsStatement(line)
  {
    TailDecides(s, line);
    var own := Rstrip(line);
    assert (s + own)[|s + own| - 1] == own[|own| - 1];
  }

  /**
   * After a text that does not end a statement, adding a line ends one exactly
   * when the line alone does.
   */
  lemma LineDecides(s: string, line: string)
    requires !EndsStatement(s)
    ensures EndsStatement(s + line) <==> EndsStatement(line)
  {
    if forall c :: c in line ==> IsSpace(c) {
      BlankLineDecides(s, line);
    } else {
      var c :| c in line && !IsSpace(c);
      var i :| 0 <= i < |line| && line[i] == c;
      SolidLineDecides(s, line);
    }
  }

  // ----- What these operations mean -----

  /** The blanks, by their code points; ten of them are ASCII. */
  lemma Blanks(c: char)
    ensures c as int < 128 ==> (IsSpace(c) <==> c in "\t\n\U{0B}\U{0C}\r\U{1C}\U{1D}\U{1E}\U{1F} ")
    ensures c as int >= 128 ==>
              (IsSpace(c) <==> || c as int in [133, 160, 5760, 8232, 8233, 8239, 8287, 12288]
                               || 8192 <= c as int < 8203)
  {
  }

  predicate Blank(s: string) { forall i :: 0 <= i < |s| ==> IsSpace(s[i]) }

  /** No blank at either end. */
  predicate Trimmed(s: string) { s != "" ==> !IsSpace(s[0]) && !IsSpace(s[|s| - 1]) }

  lemma {:induction false} LstripMeaning(before: string, s: string)
    requires Blank(before) && (s == "" || !IsSpace(s[0]))
    ensures Lstrip(before + s) == s
  {
    if before == "" {
      assert before + s == s;
    } else {
      assert (before + s)[1..] == before[1..] + s && (before + s)[0] == before[0];
      LstripMeaning(before[1..], s);
    }
  }

  lemma RstripMeaning(s: string, after: string)
    requires Blank(after) && (s == "" || !IsSpace(s[|s| - 1]))
    ensures Rstrip(s + after) == s
  {
    BlankTailEndsNothing(s, after);
  }

  /** Stripping leaves what stands between the blanks at the two ends. */
  lemma StripMeaning(before: string, s: string, after: string)
    requires Blank(before) && Blank(after) && Trimmed(s)
    ensures Strip(before + s + after) == s
  {
    if s == "" {
      assert Blank(before + s + after) && (before + s + after) + "" == before + s + after;
      LstripMeaning(before + s + after, "");
    } else {
      Assoc(before, s, after);
      LstripMeaning(before, s + after);
      RstripMeaning(s, after);
    }
  }

  ghost predicate SemicolonThenBlanks(s: string, i: nat) {
    i < |s| && s[i] == ';' && forall m :: i < m < |s| ==> IsSpace(s[m])
  }

  /** A statement ends where nothing but blanks follows a semicolon. */
  lemma {:induction false} EndsStatementMeaning(s: string)
    ensures EndsStatement(s) <==> exists i: nat :: SemicolonThenBlanks(s, i)
  {
    if s != "" {
      var n := |s| - 1;
      if IsSpace(s[n]) {
        EndsStatementMeaning(s[..n]);
        OneBlankMore(s, s[..n]);
      } else if s[n] == ';' {
        assert SemicolonThenBlanks(s, n);
      } else {
        forall i: nat
          ensures !SemicolonThenBlanks(s, i)
        {
        }
      }
    }
  }

  lemma OneBlankMore(s: string, init: string)
    requires s != "" && IsSpace(s[|s| - 1]) && init == s[..|s| - 1]
    ensures (exists i: nat :: SemicolonThenBlanks(s, i)) <==> exists i: nat :: SemicolonThenBlanks(init, i)
  {
    forall i: nat
      ensures SemicolonThenBlanks(s, i) <==> SemicolonThenBlanks(init, i)
    {
      if SemicolonThenBlanks(init, i) {
        assert s[i] == init[i];
      }
      if SemicolonThenBlanks(s, i) {
        assert i < |init| && init[i] == s[i];
        assert forall m :: i < m < |init| ==> init[m] == s[m];
      }
    }
  }

  const UPPER_CASE := "ABCDEFGHIJKLMNOPQRSTUVWXYZ"
  const LOWER_CASE := "abcdefghijklmnopqrstuvwxyz"

  lemma AlphabetsMatch(k: nat)
    requires k < 26
    ensures |UPPER_CASE| == 26 == |LOWER_CASE|
    ensures UPPER_CASE[k] as int == 65 + k && LOWER_CASE[k] as int == 97 + k
  {
  }

  /** Lower case goes letter by letter of the alphabet and leaves everything else. */
  lemma LowerMeaning(s: string, i: nat)
    requires i < |s|
    ensures |Lower(s)| == |s| && |UPPER_CASE| == 26 == |LOWER_CASE|
    ensures forall k: nat :: k < 26 && s[i] == UPPER_CASE[k] ==> Lower(s)[i] == LOWER_CASE[k]
    ensures s[i] !in UPPER_CASE ==> Lower(s)[i] == s[i]
  {
    forall k: nat | k < 26
      ensures UPPER_CASE[k] as int == 65 + k && LOWER_CASE[k] as int == 97 + k
    {
      AlphabetsMatch(k);
    }
    if 'A' <= s[i] <= 'Z' {
      assert UPPER_CASE[s[i] as int - 65] == s[i];
    }
  }

  // ----- Lines of a text file -----

  /** The lines a text file is read as; each keeps its line feed. */
  function SplitLines(text: string): seq<string>
    decreases |text|
  {
    if text == "" then []
    else
      match Find(text, "\n")
      case Some(k) => [text[..k + 1]] + SplitLines(text[k + 1..])
      case None => [text]
  }

  /** A complete line: one line feed, at its end. */
  predicate IsLine(s: string) {
    s != "" && s[|s| - 1] == '\n' && '\n' !in s[..|s| - 1]
  }

  lemma FirstLine(line: string, more: string)
    requires IsLine(line)
    ensures SplitLines(line + more) == [line] + SplitLines(more)
  {
    var init := line[..|line| - 1];
    FindChar(init, '\n', more);
    assert line == init + "\n";
    assert line + more == init + ("\n" + more);
    assert (line + more)[..|line|] == line && (line + more)[|line|..] == more;
  }

  /** Complete lines, written one after another, are read back as they are. */
  lemma {:induction false} LinesReadBack(lines: seq<string>)
    requires forall i :: 0 <= i < |lines| ==> IsLine(lines[i])
    ensures SplitLines(Flatten(lines)) == lines
  {
    if lines != [] {
      LinesReadBack(lines[1..]);
      FirstLine(lines[0], Flatten(lines[1..]));
      assert lines == [lines[0]] + lines[1..];
    }
  }

  lemma {:induction false} SplitLinesLossless(text: string)
    ensures Flatten(SplitLines(text)) == text
    decreases |text|
  {
    var cut := Find(text, "\n");
    if text != "" && cut.Some? {
      var first, rest := text[..cut.value + 1], text[cut.value + 1..];
      SplitLinesLossless(rest);
      FlattenCons(first, SplitLines(rest));
      assert text == first + rest;
    } else if text != "" {
      FlattenCons(text, []);
      assert [text] + [] == [text] && text + Flatten([]) == text;
    }
  }

  lemma FirstLineOf(text: string) returns (first: string, rest: string)
    requires |SplitLines(text)| > 1
    ensures text == first + rest && first != "" && first[|first| - 1] == '\n' && rest != ""
    ensures SplitLines(text) == [first] + SplitLines(rest)
  {
    var k := Find(text, "\n").value;
    first, rest := text[..k + 1], text[k + 1..];
    assert first[k] == text[k..k + 1][0] == '\n';
  }

  /** The first few lines of a text are a proper beginning of it that ends in a line feed. */
  lemma {:induction false} FirstLinesEnd(text: string, n: nat)
    requires 0 < n < |SplitLines(text)|
    ensures var front := Flatten(SplitLines(text)[..n]);
            front != "" && front < text && front[|front| - 1] == '\n'
    decreases |text|
  {
    var first, rest := FirstLineOf(text);
    var lines := SplitLines(rest);
    assert ([first] + lines)[..n] == [first] + lines[..n - 1];
    FlattenCons(first, lines[..n - 1]);
    if n > 1 {
      FirstLinesEnd(rest, n - 1);
    } else {
      assert first + Flatten([]) == first;
    }
  }

  lemma OnlyLine(text: string)
    requires IsLine(text)
    ensures SplitLines(text) == [text]
  {
    FirstLine(text, "");
    assert text + "" == text && [text] + [] == [text];
  }

  /** The last line of a text that ends in a semicolon and a line feed ends a statement. */
  lemma {:induction false} LastLineEnds(front: string)
    ensures var lines := SplitLines(front + ";\n"); lines != [] && EndsStatement(lines[|lines| - 1])
    ensures front != "" ==> front[0] == SplitLines(front + ";\n")[0][0]
    decreases |front|
  {
    var text := front + ";\n";
    var cut := Find(front, "\n");
    if cut.Some? {
      var k := cut.value;
      var first, rest := front[..k + 1], front[k + 1..];
      assert first[k] == front[k..k + 1][0] == '\n';
      forall i | 0 <= i < k
        ensures first[i] != '\n'
      {
        assert !OccursAt(front, "\n", i);
        assert front[i..i + 1] == [front[i]];
      }
      assert IsLine(first);
      assert text == first + (rest + ";\n");
      FirstLine(first, rest + ";\n");
      LastLineEnds(rest);
    } else {
      forall i | 0 <= i < |front|
        ensures front[i] != '\n'
      {
        assert !OccursAt(front, "\n", i);
        assert front[i..i + 1] == [front[i]];
      }
      assert text[..|text| - 1] == front + ";";
      OnlyLine(text);
      SemicolonEnds(front);
    }
  }

  lemma SemicolonEnds(front: string)
    ensures EndsStatement(front + ";\n")
  {
    assert Rstrip(";\n") == ";";
    assert !IsSpace(";\n"[0]);
    SolidLineDecides(front, ";\n");
  }
}
