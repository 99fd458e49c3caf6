/**
 * The plain-text path of the page: `escapeHtml`, a chain of four global
 * replacements, and `textToHtml`, which splits pasted text into lines, keeps
 * the non-blank ones, takes the first as the title and wraps every other one,
 * trimmed and escaped, in a paragraph.
 */
module PageText {

  // ---------------------------------------------------------------------------
  // Where a character may occur.

  /** `w` occurs in `s` starting at index `i`. */
  predicate StartsAt(s: string, i: nat, w: string) {
    i + |w| <= |s| && s[i..i + |w|] == w
  }

  /** Every occurrence of `c` in `s` begins one of `words`. */
  predicate OnlyBegins(s: string, c: char, words: seq<string>) {
    forall i :: 0 <= i < |s| && s[i] == c ==> exists k :: 0 <= k < |words| && StartsAt(s, i, words[k])
  }

  lemma OnlyBeginsAppend(a: string, b: string, c: char, words: seq<string>)
    requires OnlyBegins(a, c, words) && OnlyBegins(b, c, words)
    ensures OnlyBegins(a + b, c, words)
  {
    var s := a + b;
    forall i | 0 <= i < |s| && s[i] == c
      ensures exists k :: 0 <= k < |words| && StartsAt(s, i, words[k])
    {
      if i < |a| {
        assert a[i] == c;
        var k :| 0 <= k < |words| && StartsAt(a, i, words[k]);
        assert s[i..i + |words[k]|] == a[i..i + |words[k]|];
        assert StartsAt(s, i, words[k]);
      } else {
        var j := i - |a|;
        assert b[j] == c;
        var k :| 0 <= k < |words| && StartsAt(b, j, words[k]);
        assert s[i..i + |words[k]|] == b[j..j + |words[k]|];
        assert StartsAt(s, i, words[k]);
      }
    }
  }

  lemma OnlyBeginsAbsent(s: string, c: char, words: seq<string>)
    requires c !in s
    ensures OnlyBegins(s, c, words)
  {
    forall i | 0 <= i < |s| ensures s[i] != c {
      assert s[i] in s;
    }
  }

  // ---------------------------------------------------------------------------
  // escapeHtml

  /** `s.replace(/c/g, replacement)` for a one-character pattern. */
  function ReplaceAll(s: string, c: char, replacement: string): (r: string)
    ensures c !in s ==> r == s
    ensures forall x :: x in r ==> x in s || x in replacement
    ensures c !in replacement ==> c !in r
    decreases s
  {
    if s == [] then []
    else (if s[0] == c then replacement else [s[0]]) + ReplaceAll(s[1..], c, replacement)
  }

  lemma {:induction false} ReplaceAllAppend(a: string, b: string, c: char, replacement: string)
    ensures ReplaceAll(a + b, c, replacement) == ReplaceAll(a, c, replacement) + ReplaceAll(b, c, replacement)
    decreases a
  {
    if a == [] {
      assert a + b == b;
    } else {
      assert (a + b)[1..] == a[1..] + b;
      ReplaceAllAppend(a[1..], b, c, replacement);
    }
  }

  /** `escapeHtml(s)`: `&` first, then `<`, `>` and `"`. */
  function EscapeHtml(s: string): (r: string)
    ensures '<' !in r && '>' !in r && '"' !in r
  {
    ReplaceAll(ReplaceAll(ReplaceAll(ReplaceAll(s, '&', "&amp;"), '<', "&lt;"), '>', "&gt;"), '"', "&quot;")
  }

  const ENTITIES: seq<string> := ["&amp;", "&lt;", "&gt;", "&quot;"]

  /** The one-character reference definition of the escape. */
  function EscapeChar(c: char): string {
    if c == '&' then "&amp;"
    else if c == '<' then "&lt;"
    else if c == '>' then "&gt;"
    else if c == '"' then "&quot;"
    else [c]
  }

  function EscapeEach(s: string): (r: string)
    ensures |r| >= |s|
    ensures forall x :: x in r ==> x in s || x in "&amp;lt;gt;quot;"
    ensures '<' !in r && '>' !in r && '"' !in r
    decreases s
  {
    if s == [] then [] else EscapeChar(s[0]) + EscapeEach(s[1..])
  }

  lemma EscapeHtmlAppend(a: string, b: string)
    ensures EscapeHtml(a + b) == EscapeHtml(a) + EscapeHtml(b)
  {
    var r1a, r1b := ReplaceAll(a, '&', "&amp;"), ReplaceAll(b, '&', "&amp;");
    ReplaceAllAppend(a, b, '&', "&amp;");
    var r2a, r2b := ReplaceAll(r1a, '<', "&lt;"), ReplaceAll(r1b, '<', "&lt;");
    ReplaceAllAppend(r1a, r1b, '<', "&lt;");
    var r3a, r3b := ReplaceAll(r2a, '>', "&gt;"), ReplaceAll(r2b, '>', "&gt;");
    ReplaceAllAppend(r2a, r2b, '>', "&gt;");
    ReplaceAllAppend(r3a, r3b, '"', "&quot;");
  }

  lemma ReplaceAllOne(x: char, c: char, replacement: string)
    ensures ReplaceAll([x], c, replacement) == if x == c then replacement else [x]
  {
    assert ReplaceAll([x], c, replacement) == (if x == c then replacement else [x]) + ReplaceAll([], c, replacement);
  }

  lemma EscapeHtmlOneChar(c: char)
    ensures EscapeHtml([c]) == EscapeChar(c)
  {
    ReplaceAllOne(c, '&', "&amp;");
    if c == '&' {
      assert '<' !in "&amp;" && '>' !in "&amp;" && '"' !in "&amp;";
    } else {
      ReplaceAllOne(c, '<', "&lt;");
      if c == '<' {
        assert '>' !in "&lt;" && '"' !in "&lt;";
      } else {
        ReplaceAllOne(c, '>', "&gt;");
        if c == '>' {
          assert '"' !in "&gt;";
        } else {
          ReplaceAllOne(c, '"', "&quot;");
        }
      }
    }
  }

  /** Because `&` is replaced first, the chain is the per-character escape. */
  lemma {:induction false} EscapeHtmlIsPerCharacter(s: string)
    ensures EscapeHtml(s) == EscapeEach(s)
    decreases s
  {
    if s == [] {
    } else {
      assert s == [s[0]] + s[1..];
      EscapeHtmlAppend([s[0]], s[1..]);
      EscapeHtmlOneChar(s[0]);
      EscapeHtmlIsPerCharacter(s[1..]);
    }
  }

  lemma {:induction false} EscapeEachAmpersands(s: string)
    ensures OnlyBegins(EscapeEach(s), '&', ENTITIES)
    decreases s
  {
    if s == [] {
      OnlyBeginsAbsent([], '&', ENTITIES);
    } else {
      var c := s[0];
      if c == '&' || c == '<' || c == '>' || c == '"' {
        var e := EscapeChar(c);
        forall i | 0 <= i < |e| && e[i] == '&'
          ensures exists k :: 0 <= k < |ENTITIES| && StartsAt(e, i, ENTITIES[k])
        {
          assert i == 0;
          assert StartsAt(e, 0, ENTITIES[if c == '&' then 0 else if c == '<' then 1 else if c == '>' then 2 else 3]);
        }
      } else {
        OnlyBeginsAbsent([c], '&', ENTITIES);
      }
      EscapeEachAmpersands(s[1..]);
      OnlyBeginsAppend(EscapeChar(c), EscapeEach(s[1..]), '&', ENTITIES);
    }
  }

  /** The output holds no `<`, `>` or `"`, and every `&` in it begins one of the four entities. */
  lemma EscapeHtmlIsSafe(s: string)
    ensures '<' !in EscapeHtml(s) && '>' !in EscapeHtml(s) && '"' !in EscapeHtml(s)
    ensures OnlyBegins(EscapeHtml(s), '&', ["&amp;", "&lt;", "&gt;", "&quot;"])
  {
    EscapeHtmlIsPerCharacter(s);
    EscapeEachAmpersands(s);
  }

  /** A string without `&`, `<`, `>` and `"` is left as it is. */
  lemma EscapeHtmlIdentity(s: string)
    requires '&' !in s && '<' !in s && '>' !in s && '"' !in s
    ensures EscapeHtml(s) == s
  {
  }

  predicate StartsWith(s: string, w: string) {
    |w| <= |s| && s[..|w|] == w
  }

  /** Decodes the four entities, left to right. */
  function Unescape(s: string): string
    decreases |s|
  {
    if s == [] then []
    else if StartsWith(s, "&amp;") then "&" + Unescape(s[5..])
    else if StartsWith(s, "&lt;") then "<" + Unescape(s[4..])
    else if StartsWith(s, "&gt;") then ">" + Unescape(s[4..])
    else if StartsWith(s, "&quot;") then "\"" + Unescape(s[6..])
    else [s[0]] + Unescape(s[1..])
  }

  lemma DiffersAt(s: string, w: string, i: nat)
    requires i < |w| && i < |s| && s[i] != w[i]
    ensures !StartsWith(s, w)
  {
  }

  lemma UnescapeStep(c: char, rest: string)
    ensures Unescape(EscapeChar(c) + rest) == [c] + Unescape(rest)
  {
    var e := EscapeChar(c);
    var s := e + rest;
    assert s[..|e|] == e;
    assert s[|e|..] == rest;
    if c == '&' {
      assert StartsWith(s, "&amp;");
    } else if c == '<' {
      DiffersAt(s, "&amp;", 1);
      assert StartsWith(s, "&lt;");
    } else if c == '>' {
      DiffersAt(s, "&amp;", 1);
      DiffersAt(s, "&lt;", 1);
      assert StartsWith(s, "&gt;");
    } else if c == '"' {
      DiffersAt(s, "&amp;", 1);
      DiffersAt(s, "&lt;", 1);
      DiffersAt(s, "&gt;", 1);
      assert StartsWith(s, "&quot;");
    } else {
      DiffersAt(s, "&amp;", 0);
      DiffersAt(s, "&lt;", 0);
      DiffersAt(s, "&gt;", 0);
      DiffersAt(s, "&quot;", 0);
    }
  }

  lemma {:induction false} UnescapeEscapeEach(s: string)
    ensures Unescape(EscapeEach(s)) == s
    decreases s
  {
    if s != [] {
      UnescapeStep(s[0], EscapeEach(s[1..]));
      UnescapeEscapeEach(s[1..]);
    }
  }

  /** Decoding the four entities recovers the input. */
  lemma UnescapeEscapeHtml(s: string)
    ensures Unescape(EscapeHtml(s)) == s
  {
    EscapeHtmlIsPerCharacter(s);
    UnescapeEscapeEach(s);
  }

  // ---------------------------------------------------------------------------
  // String.prototype.trim, split and join

  /** ECMAScript WhiteSpace and LineTerminator code points: what `trim` strips. */
  predicate IsWhiteSpace(c: char) {
    c == '\t' || c == '\n' || c == '\U{000B}' || c == '\U{000C}' || c == '\r' || c == ' '
    || c == '\U{00A0}' || c == '\U{1680}' || ('\U{2000}' <= c <= '\U{200A}')
    || c == '\U{2028}' || c == '\U{2029}' || c == '\U{202F}' || c == '\U{205F}'
    || c == '\U{3000}' || c == '\U{FEFF}'
  }

  function TrimStart(s: string): string
    decreases s
  {
    if s != [] && IsWhiteSpace(s[0]) then TrimStart(s[1..]) else s
  }

  function TrimEnd(s: string): string
    decreases s
  {
    if s != [] && IsWhiteSpace(s[|s| - 1]) then TrimEnd(s[..|s| - 1]) else s
  }

  /** `s.trim()`. */
  function Trim(s: string): string {
    TrimEnd(TrimStart(s))
  }

  /** `TrimStart` drops a white-space prefix and keeps a suffix that does not start with white space. */
  lemma {:induction false} TrimStartSpec(s: string)
    ensures var r := TrimStart(s);
      |r| <= |s| && r == s[|s| - |r|..]
      && (forall k :: 0 <= k < |s| - |r| ==> IsWhiteSpace(s[k]))
      && (r != [] ==> !IsWhiteSpace(r[0]))
    decreases s
  {
    if s != [] && IsWhiteSpace(s[0]) {
      TrimStartSpec(s[1..]);
      var r := TrimStart(s);
      assert s[|s| - |r|..] == s[1..][|s| - 1 - |r|..];
      forall k | 0 <= k < |s| - |r| ensures IsWhiteSpace(s[k]) {
        if k > 0 { assert s[k] == s[1..][k - 1]; }
      }
    }
  }

  /** `TrimEnd` drops a white-space suffix and keeps a prefix that does not end with white space. */
  lemma {:induction false} TrimEndSpec(s: string)
    ensures var r := TrimEnd(s);
      |r| <= |s| && r == s[..|r|]
      && (forall k :: |r| <= k < |s| ==> IsWhiteSpace(s[k]))
      && (r != [] ==> !IsWhiteSpace(r[|r| - 1]))
    decreases s
  {
    if s != [] && IsWhiteSpace(s[|s| - 1]) {
      var s' := s[..|s| - 1];
      TrimEndSpec(s');
      var r := TrimEnd(s);
      assert s[..|r|] == s'[..|r|];
      forall k | |r| <= k < |s| ensures IsWhiteSpace(s[k]) {
        if k < |s| - 1 { assert s[k] == s'[k]; }
      }
    }
  }

  /**
   * `trim` removes only white space, from both ends, and leaves a string that
   * neither starts nor ends with it.
   */
  lemma TrimIsInnerPart(s: string)
    ensures exists i, j :: 0 <= i <= j <= |s| && Trim(s) == s[i..j]
              && (forall k :: 0 <= k < i ==> IsWhiteSpace(s[k]))
              && (forall k :: j <= k < |s| ==> IsWhiteSpace(s[k]))
    ensures Trim(s) != [] ==> !IsWhiteSpace(Trim(s)[0]) && !IsWhiteSpace(Trim(s)[|Trim(s)| - 1])
  {
    var t := TrimStart(s);
    TrimStartSpec(s);
    TrimEndSpec(t);
    var i := |s| - |t|;
    var j := i + |Trim(s)|;
    assert Trim(s) == t[..|Trim(s)|];
    assert s[i..j] == t[..|Trim(s)|];
    forall k | j <= k < |s| ensures IsWhiteSpace(s[k]) {
      assert s[k] == t[k - i];
    }
    if Trim(s) != [] {
      assert Trim(s)[0] == t[0];
    }
  }

  /** A line is blank, in the sense of the filter, exactly when it is all white space. */
  lemma TrimEmptyIffAllWhiteSpace(s: string)
    ensures Trim(s) == [] <==> forall k :: 0 <= k < |s| ==> IsWhiteSpace(s[k])
  {
    var t := TrimStart(s);
    TrimStartSpec(s);
    TrimEndSpec(t);
    if Trim(s) != [] {
      TrimIsInnerPart(s);
    }
  }

  lemma TrimKeepsCharacters(s: string, c: char)
    requires c !in s
    ensures c !in Trim(s)
  {
    TrimIsInnerPart(s);
    var i, j :| 0 <= i <= j <= |s| && Trim(s) == s[i..j];
    forall k | 0 <= k < |Trim(s)| ensures Trim(s)[k] != c {
      assert Trim(s)[k] == s[i + k];
      assert s[i + k] in s;
    }
  }

  /** `s.split(sep)` for a one-character separator. */
  function Split(s: string, sep: char): (r: seq<string>)
    ensures |r| >= 1
    ensures forall k :: 0 <= k < |r| ==> sep !in r[k]
    decreases s
  {
    if s == [] then [""]
    else if s[0] == sep then [""] + Split(s[1..], sep)
    else
      var rest := Split(s[1..], sep);
      [[s[0]] + rest[0]] + rest[1..]
  }

  /** `parts.join(sep)`. */
  function Join(parts: seq<string>, sep: string): string
    decreases parts
  {
    if parts == [] then ""
    else if |parts| == 1 then parts[0]
    else parts[0] + sep + Join(parts[1..], sep)
  }

  lemma JoinCons(p: string, parts: seq<string>, sep: string)
    requires parts != []
    ensures Join([p] + parts, sep) == p + sep + Join(parts, sep)
  {
    assert ([p] + parts)[1..] == parts;
  }

  /** Joining the pieces with the separator gives back the string. */
  lemma {:induction false} JoinSplit(s: string, sep: char)
    ensures Join(Split(s, sep), [sep]) == s
    decreases s
  {
    if s != [] {
      var rest := Split(s[1..], sep);
      JoinSplit(s[1..], sep);
      if s[0] == sep {
        JoinCons("", rest, [sep]);
        assert s == [sep] + s[1..];
      } else {
        var head := [s[0]] + rest[0];
        if |rest| == 1 {
          assert Split(s, sep) == [head];
        } else {
          assert rest == [rest[0]] + rest[1..];
          JoinCons(rest[0], rest[1..], [sep]);
          JoinCons(head, rest[1..], [sep]);
        }
        assert s == [s[0]] + s[1..];
      }
    }
  }

  lemma {:induction false} SplitPrefix(p: string, t: string, sep: char)
    requires sep !in p
    ensures Split(p + t, sep) == [p + Split(t, sep)[0]] + Split(t, sep)[1..]
    decreases p
  {
    if p == [] {
      assert p + t == t;
      assert p + Split(t, sep)[0] == Split(t, sep)[0];
      assert Split(t, sep) == [Split(t, sep)[0]] + Split(t, sep)[1..];
    } else {
      assert (p + t)[0] == p[0];
      assert (p + t)[1..] == p[1..] + t;
      assert p[1..] + Split(t, sep)[0] == (p[1..] + t)[..0] + p[1..] + Split(t, sep)[0];
      SplitPrefix(p[1..], t, sep);
      assert [p[0]] + (p[1..] + Split(t, sep)[0]) == p + Split(t, sep)[0];
    }
  }

  /** Splitting a join of separator-free pieces gives the pieces back. */
  lemma {:induction false} SplitJoin(parts: seq<string>, sep: char)
    requires parts != []
    requires forall k :: 0 <= k < |parts| ==> sep !in parts[k]
    ensures Split(Join(parts, [sep]), sep) == parts
    decreases parts
  {
    if |parts| == 1 {
      SplitPrefix(parts[0], "", sep);
      assert parts[0] + "" == parts[0];
    } else {
      var rest := Join(parts[1..], [sep]);
      SplitJoin(parts[1..], sep);
      assert Join(parts, [sep]) == parts[0] + ([sep] + rest);
      SplitPrefix(parts[0], [sep] + rest, sep);
      assert ([sep] + rest)[1..] == rest;
      assert parts[0] + "" == parts[0];
      assert parts == [parts[0]] + parts[1..];
    }
  }

  // ---------------------------------------------------------------------------
  // textToHtml

  datatype TextArticle = TextArticle(title: string, content: string)

  /** The truthiness test of `.filter((l) => l.trim())`. */
  predicate NonBlank(l: string) { Trim(l) != "" }

  function KeepNonBlank(lines: seq<string>): (kept: seq<string>)
    ensures |kept| <= |lines|
    decreases lines
  {
    if lines == [] then []
    else if NonBlank(lines[0]) then [lines[0]] + KeepNonBlank(lines[1..])
    else KeepNonBlank(lines[1..])
  }

  /** `<p>${escapeHtml(l.trim())}</p>`. */
  function Paragraph(l: string): string {
    "<p>" + EscapeHtml(Trim(l)) + "</p>"
  }

  function Paragraphs(lines: seq<string>): (ps: seq<string>)
    ensures |ps| == |lines|
    decreases lines
  {
    if lines == [] then [] else [Paragraph(lines[0])] + Paragraphs(lines[1..])
  }

  /** `lines[0] || "Untitled"`. */
  function TitleOf(lines: seq<string>): string {
    if |lines| > 0 && lines[0] != "" then lines[0] else "Untitled"
  }

  /** `lines.slice(1).map(...).join("\n")`. */
  function ContentOf(lines: seq<string>): string {
    Join(Paragraphs(if lines == [] then [] else lines[1..]), "\n")
  }

  /** `textToHtml(raw)`. */
  function TextToHtml(raw: string): TextArticle {
    var lines := KeepNonBlank(Split(raw, '\n'));
    TextArticle(TitleOf(lines), ContentOf(lines))
  }

  /** The filter keeps exactly the non-blank lines. */
  lemma {:induction false} KeepNonBlankMembers(lines: seq<string>)
    ensures forall l :: l in KeepNonBlank(lines) <==> l in lines && NonBlank(l)
    decreases lines
  {
    if lines != [] {
      KeepNonBlankMembers(lines[1..]);
      assert lines == [lines[0]] + lines[1..];
    }
  }

  /** The filter keeps order and multiplicity: filtering a concatenation filters each part. */
  lemma {:induction false} KeepNonBlankAppend(a: seq<string>, b: seq<string>)
    ensures KeepNonBlank(a + b) == KeepNonBlank(a) + KeepNonBlank(b)
    decreases a
  {
    if a != [] {
      assert (a + b)[0] == a[0];
      assert (a + b)[1..] == a[1..] + b;
      KeepNonBlankAppend(a[1..], b);
    } else {
      assert a + b == b;
    }
  }

  /** The index of the first non-blank line, or `|lines|` when there is none. */
  function FirstNonBlank(lines: seq<string>): (k: nat)
    ensures k <= |lines|
    ensures forall j :: 0 <= j < k ==> !NonBlank(lines[j])
    ensures k < |lines| ==> NonBlank(lines[k])
    decreases lines
  {
    if lines == [] then 0
    else if NonBlank(lines[0]) then 0
    else 1 + FirstNonBlank(lines[1..])
  }

  lemma {:induction false} KeepNonBlankHead(lines: seq<string>)
    ensures KeepNonBlank(lines) == [] <==> FirstNonBlank(lines) == |lines|
    ensures KeepNonBlank(lines) != [] ==> KeepNonBlank(lines)[0] == lines[FirstNonBlank(lines)]
    decreases lines
  {
    if lines != [] && !NonBlank(lines[0]) {
      KeepNonBlankHead(lines[1..]);
    }
  }

  /**
   * The title is the first non-blank line exactly as split (neither trimmed nor
   * escaped), or "Untitled" when every line is blank.
   */
  lemma TitleIsFirstNonBlankLine(raw: string)
    ensures var lines := Split(raw, '\n');
      var k := FirstNonBlank(lines);
      TextToHtml(raw).title == if k < |lines| then lines[k] else "Untitled"
  {
    TitleOfKept(Split(raw, '\n'));
  }

  lemma TitleOfKept(lines: seq<string>)
    ensures var k := FirstNonBlank(lines);
      TitleOf(KeepNonBlank(lines)) == if k < |lines| then lines[k] else "Untitled"
  {
    KeepNonBlankHead(lines);
    var kept := KeepNonBlank(lines);
    if kept != [] {
      assert Trim("") == "";
    }
  }

  lemma EscapedBody(t: string)
    requires t != "" && '\n' !in t
    ensures EscapeHtml(t) != "" && '\n' !in EscapeHtml(t) && Unescape(EscapeHtml(t)) == t
  {
    EscapeHtmlIsPerCharacter(t);
    assert '\n' !in "&amp;lt;gt;quot;";
    UnescapeEscapeHtml(t);
  }

  lemma ParagraphShape(l: string)
    requires NonBlank(l) && '\n' !in l
    ensures var body := EscapeHtml(Trim(l));
      Paragraph(l) == "<p>" + body + "</p>"
      && body != "" && '<' !in body && '>' !in body && '"' !in body && '\n' !in body
      && Unescape(body) == Trim(l)
  {
    TrimKeepsCharacters(l, '\n');
    EscapedBody(Trim(l));
  }

  const WRAPPERS: seq<string> := ["<p>", "</p>"]

  lemma ParagraphAngles(l: string)
    ensures OnlyBegins(Paragraph(l), '<', WRAPPERS)
  {
    var body := EscapeHtml(Trim(l));
    assert StartsAt("<p>", 0, WRAPPERS[0]);
    assert OnlyBegins("<p>", '<', WRAPPERS);
    assert StartsAt("</p>", 0, WRAPPERS[1]);
    assert OnlyBegins("</p>", '<', WRAPPERS);
    OnlyBeginsAbsent(body, '<', WRAPPERS);
    OnlyBeginsAppend("<p>", body, '<', WRAPPERS);
    OnlyBeginsAppend("<p>" + body, "</p>", '<', WRAPPERS);
  }

  lemma {:induction false} JoinedParagraphAngles(lines: seq<string>)
    ensures OnlyBegins(Join(Paragraphs(lines), "\n"), '<', WRAPPERS)
    decreases lines
  {
    if lines == [] {
      OnlyBeginsAbsent("", '<', WRAPPERS);
    } else if |lines| == 1 {
      ParagraphAngles(lines[0]);
    } else {
      var rest := Join(Paragraphs(lines[1..]), "\n");
      JoinedParagraphAngles(lines[1..]);
      ParagraphAngles(lines[0]);
      OnlyBeginsAbsent("\n", '<', WRAPPERS);
      OnlyBeginsAppend(Paragraph(lines[0]), "\n", '<', WRAPPERS);
      OnlyBeginsAppend(Paragraph(lines[0]) + "\n", rest, '<', WRAPPERS);
    }
  }

  lemma ParagraphHasNoLineFeed(l: string)
    requires '\n' !in l
    ensures '\n' !in Paragraph(l)
  {
    TrimKeepsCharacters(l, '\n');
    EscapeHtmlIsPerCharacter(Trim(l));
    assert '\n' !in "&amp;lt;gt;quot;";
    assert '\n' !in EscapeHtml(Trim(l));
  }

  lemma {:induction false} ParagraphsAreLines(lines: seq<string>)
    requires forall k :: 0 <= k < |lines| ==> '\n' !in lines[k]
    ensures forall k :: 0 <= k < |lines| ==> '\n' !in Paragraphs(lines)[k]
    decreases lines
  {
    if lines != [] {
      ParagraphsAreLines(lines[1..]);
      var ps := Paragraphs(lines);
      forall k | 0 <= k < |lines| ensures '\n' !in ps[k] {
        if k == 0 {
          ParagraphHasNoLineFeed(lines[0]);
        } else {
          assert ps[k] == Paragraphs(lines[1..])[k - 1];
        }
      }
    }
  }

  lemma {:induction false} KeptLinesHaveNoLineFeed(lines: seq<string>)
    requires forall k :: 0 <= k < |lines| ==> '\n' !in lines[k]
    ensures forall k :: 0 <= k < |KeepNonBlank(lines)| ==>
              NonBlank(KeepNonBlank(lines)[k]) && '\n' !in KeepNonBlank(lines)[k]
  {
    KeepNonBlankMembers(lines);
    forall k | 0 <= k < |KeepNonBlank(lines)|
      ensures NonBlank(KeepNonBlank(lines)[k]) && '\n' !in KeepNonBlank(lines)[k]
    {
      assert KeepNonBlank(lines)[k] in KeepNonBlank(lines);
    }
  }

  lemma ContentOfKept(kept: seq<string>)
    requires forall k :: 0 <= k < |kept| ==> NonBlank(kept[k]) && '\n' !in kept[k]
    ensures ContentOf(kept) == "" <==> |kept| <= 1
    ensures |kept| >= 2 ==> Split(ContentOf(kept), '\n') == Paragraphs(kept[1..])
    ensures OnlyBegins(ContentOf(kept), '<', WRAPPERS)
  {
    JoinedParagraphAngles(if kept == [] then [] else kept[1..]);
    if |kept| >= 2 {
      var ps := Paragraphs(kept[1..]);
      ParagraphsAreLines(kept[1..]);
      SplitJoin(ps, '\n');
      assert ps[0] == Paragraph(kept[1]);
      assert |Join(ps, "\n")| >= |ps[0]| by {
        if |ps| > 1 { assert Join(ps, "\n") == ps[0] + "\n" + Join(ps[1..], "\n"); }
      }
    }
  }

  /**
   * The content is one paragraph per kept line after the first, in order and
   * joined by line feeds: splitting it at line feeds gives the paragraphs back.
   * It is empty exactly when at most one line is kept, and any `<` in it opens
   * a `<p>` or a `</p>`.
   */
  lemma ContentIsParagraphs(raw: string)
    ensures var kept := KeepNonBlank(Split(raw, '\n'));
      var content := TextToHtml(raw).content;
      (content == "" <==> |kept| <= 1)
      && (|kept| >= 2 ==> Split(content, '\n') == Paragraphs(kept[1..]))
      && OnlyBegins(content, '<', ["<p>", "</p>"])
  {
    KeptLinesHaveNoLineFeed(Split(raw, '\n'));
    ContentOfKept(KeepNonBlank(Split(raw, '\n')));
  }
}
