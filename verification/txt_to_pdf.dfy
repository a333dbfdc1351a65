/** The text side of scripts/convert_txt_to_pdf.py: splitting a text file
    into paragraphs at blank lines, folding each paragraph onto one line,
    escaping it for ReportLab's markup, and the path of the PDF written for
    each `.txt` file. Rendering the PDF is left out. */
module TxtToPdf {
  import opened Wrappers
  import opened Strings
  import opened Paths
  import opened Sequences

  // ---------------------------------------------------------------------
  // Paragraphs

  const BlankLine := "\n\n"

  /** Neither starts nor ends with whitespace: what `strip()` leaves. */
  predicate Stripped(s: string) {
    s == [] || (!IsSpace(s[0]) && !IsSpace(s[|s| - 1]))
  }

  function StripAll(lines: seq<string>): (r: seq<string>)
    ensures |r| == |lines|
    ensures forall i :: 0 <= i < |r| ==> r[i] == Strip(lines[i])
    decreases |lines|
  {
    if lines == [] then [] else [Strip(lines[0])] + StripAll(lines[1..])
  }

  /** The non-empty strings of `xs`, in order: `[x for x in xs if x]`. */
  function NonEmpty(xs: seq<string>): (r: seq<string>)
    ensures IsSubsequence(r, xs)
    ensures forall x :: multiset(r)[x] == if x != "" then multiset(xs)[x] else 0
    ensures |r| <= |xs|
    ensures forall x :: x in r <==> x in xs && x != ""
    decreases |xs|
  {
    if xs == [] then []
    else
      var rest := NonEmpty(xs[1..]);
      assert forall x :: x in xs <==> x == xs[0] || x in xs[1..];
      FilterStep(xs, rest, x => x != "");
      if xs[0] != "" then [xs[0]] + rest else rest
  }

  /** A substring of `s` can only contain what `s` contains. */
  lemma ContainsThrough(s: string, t: string, p: string)
    requires Contains(s, t)
    ensures Contains(t, p) ==> Contains(s, p)
  {
    if Contains(t, p) {
      ContainsTransitive(s, t, p);
    }
  }

  /** `[p.strip() for p in text.split('\n\n') if p.strip()]`. */
  function Paragraphs(text: string): (r: seq<string>)
    ensures forall i :: 0 <= i < |r| ==> r[i] != "" && Stripped(r[i])
    ensures forall i :: 0 <= i < |r| ==> Contains(text, r[i]) && !Contains(r[i], BlankLine)
  {
    var pieces := Split(text, BlankLine);
    var stripped := StripAll(pieces);
    var r := NonEmpty(stripped);
    forall i | 0 <= i < |r|
      ensures r[i] != "" && Stripped(r[i])
      ensures Contains(text, r[i]) && !Contains(r[i], BlankLine)
    {
      assert r[i] in stripped;
      var j :| 0 <= j < |stripped| && stripped[j] == r[i];
      StripIsSubstring(pieces[j]);
      ContainsTransitive(text, pieces[j], r[i]);
      ContainsThrough(pieces[j], r[i], BlankLine);
    }
    r
  }

  /** A stripped string is its own strip. */
  lemma StripStripped(s: string)
    requires Stripped(s)
    ensures Strip(s) == s
  {
    if s != [] {
      assert SkipSpaces(s, 0) == 0;
      assert TextEnd(s, 0, |s|) == |s|;
      assert s[0..|s|] == s;
    }
  }

  /** Splitting on a two-character separator undoes joining on it, when no
      part contains the separator or ends with its first character. */
  lemma {:induction false} SplitJoinPair(parts: seq<string>, sep: string)
    requires |parts| >= 1 && |sep| == 2
    requires forall i :: 0 <= i < |parts| ==> !Contains(parts[i], sep)
    requires forall i :: 0 <= i < |parts| ==> parts[i] == [] || parts[i][|parts[i]| - 1] != sep[0]
    ensures Split(Join(sep, parts), sep) == parts
    decreases |parts|
  {
    var s := Join(sep, parts);
    if |parts| > 1 {
      var p0 := parts[0];
      var tail := Join(sep, parts[1..]);
      assert s == p0 + sep + tail;
      FirstSeparatorAfterPart(p0, sep, tail);
      assert s[..|p0|] == p0;
      assert s[|p0| + 2..] == tail;
      SplitJoinPair(parts[1..], sep);
      assert parts == [p0] + parts[1..];
    }
  }

  /** The first separator in `p0 + sep + tail` is the one after `p0`. */
  lemma FirstSeparatorAfterPart(p0: string, sep: string, tail: string)
    requires |sep| == 2 && !Contains(p0, sep)
    requires p0 == [] || p0[|p0| - 1] != sep[0]
    ensures Find(p0 + sep + tail, sep) == |p0|
  {
    var s := p0 + sep + tail;
    assert s[|p0|..|p0| + 2] == sep;
    assert OccursAt(s, sep, |p0|);
    forall j | 0 <= j < |p0|
      ensures !OccursAt(s, sep, j)
    {
      if j + 2 <= |p0| {
        assert !OccursAt(p0, sep, j);
        assert s[j..j + 2] == p0[j..j + 2];
      } else {
        assert s[j] == p0[j];
        assert s[j..j + 2][0] == s[j];
      }
    }
  }

  /** Paragraphs that are already stripped and hold no blank line come back
      unchanged from the blank-line-separated text they make up. */
  lemma ParagraphsOfJoin(ps: seq<string>)
    requires forall i :: 0 <= i < |ps| ==> ps[i] != "" && Stripped(ps[i])
    requires forall i :: 0 <= i < |ps| ==> !Contains(ps[i], BlankLine)
    ensures Paragraphs(Join(BlankLine, ps)) == ps
  {
    if ps == [] {
      assert Split("", BlankLine) == [""] by {
        assert !Contains("", BlankLine);
      }
      assert Strip("") == "";
    } else {
      forall i | 0 <= i < |ps|
        ensures ps[i][|ps[i]| - 1] != BlankLine[0]
      {
        LineBreakIsSpace('\n');
      }
      SplitJoinPair(ps, BlankLine);
      StripAllStripped(ps);
      NonEmptyAll(ps);
    }
  }

  lemma StripAllStripped(ps: seq<string>)
    requires forall i :: 0 <= i < |ps| ==> Stripped(ps[i])
    ensures StripAll(ps) == ps
  {
    var r := StripAll(ps);
    forall i | 0 <= i < |ps|
      ensures r[i] == ps[i]
    {
      StripStripped(ps[i]);
    }
  }

  lemma {:induction false} NonEmptyAll(ps: seq<string>)
    requires forall i :: 0 <= i < |ps| ==> ps[i] != ""
    ensures NonEmpty(ps) == ps
    decreases |ps|
  {
    if ps != [] {
      NonEmptyAll(ps[1..]);
      assert ps == [ps[0]] + ps[1..];
    }
  }

  /** A text without blank lines is one paragraph, or none when it is all
      whitespace. */
  lemma SingleParagraph(text: string)
    requires !Contains(text, BlankLine)
    ensures Paragraphs(text) == if AllSpace(text) then [] else [Strip(text)]
  {
    assert Split(text, BlankLine) == [text];
    ParagraphsOfPieces(text, []);
    assert [text] + [] == [text];
  }

  /** The first split piece gives at most one paragraph, ahead of the rest. */
  lemma ParagraphsOfPieces(h: string, rest: seq<string>)
    ensures NonEmpty(StripAll([h] + rest))
         == (if AllSpace(h) then [] else [Strip(h)]) + NonEmpty(StripAll(rest))
  {
    var ys := StripAll([h] + rest);
    assert ys == [Strip(h)] + StripAll(rest);
    assert ys[1..] == StripAll(rest);
  }

  /** The text is cut at its first blank line: the paragraphs before it come
      first, then those after it. With SingleParagraph this determines
      `Paragraphs` on every text. */
  lemma ParagraphsAtFirstBlank(text: string)
    requires Contains(text, BlankLine)
    ensures var i := Find(text, BlankLine);
      Paragraphs(text) == Paragraphs(text[..i]) + Paragraphs(text[i + 2..])
  {
    var i := Find(text, BlankLine);
    var head, tail := text[..i], text[i + 2..];
    assert Split(text, BlankLine) == [head] + Split(tail, BlankLine);
    assert !Contains(head, BlankLine);
    SingleParagraph(head);
    ParagraphsOfPieces(head, Split(tail, BlankLine));
  }

  /** Joining two texts at a blank line concatenates their paragraphs, when
      the first holds no blank line and does not end in a line break. */
  lemma ParagraphsStep(a: string, b: string)
    requires !Contains(a, BlankLine)
    requires a == [] || a[|a| - 1] != '\n'
    ensures Paragraphs(a + BlankLine + b) == Paragraphs(a) + Paragraphs(b)
  {
    var text := a + BlankLine + b;
    FirstSeparatorAfterPart(a, BlankLine, b);
    assert OccursAt(text, BlankLine, |a|);
    ParagraphsAtFirstBlank(text);
    assert text[..|a|] == a;
    assert text[|a| + 2..] == b;
  }

  // ---------------------------------------------------------------------
  // Folding a paragraph onto one line

  /** `' '.join([line.strip() for line in p.splitlines()])`. */
  function CleanParagraph(p: string): (r: string)
    ensures NoLineBreak(r)
  {
    FoldedHasNoLineBreak(SplitLines(p));
    Join(" ", StripAll(SplitLines(p)))
  }

  lemma StripKeepsNoLineBreak(l: string)
    requires NoLineBreak(l)
    ensures NoLineBreak(Strip(l))
  {
    var a := LeadingSpaces(l);
    var r := Strip(l);
    assert forall k :: 0 <= k < |r| ==> r[k] == l[a + k];
  }

  lemma FoldedHasNoLineBreak(lines: seq<string>)
    requires forall i :: 0 <= i < |lines| ==> NoLineBreak(lines[i])
    ensures NoLineBreak(Join(" ", StripAll(lines)))
  {
    StripAllNoLineBreak(lines);
    SpaceIsNoLineBreak();
    JoinNoLineBreak(" ", StripAll(lines));
  }

  lemma StripAllNoLineBreak(lines: seq<string>)
    requires forall i :: 0 <= i < |lines| ==> NoLineBreak(lines[i])
    ensures forall i :: 0 <= i < |StripAll(lines)| ==> NoLineBreak(StripAll(lines)[i])
  {
    var r := StripAll(lines);
    forall i | 0 <= i < |r|
      ensures NoLineBreak(r[i])
    {
      StripKeepsNoLineBreak(lines[i]);
    }
  }

  lemma SpaceIsNoLineBreak()
    ensures NoLineBreak(" ")
  {
    assert " "[0] == ' ';
  }

  /** A paragraph on a single line is only stripped. */
  lemma CleanSingleLine(p: string)
    requires NoLineBreak(p)
    ensures CleanParagraph(p) == Strip(p)
  {
    if p != "" {
      assert NextBreak(p, 0) == |p|;
      assert SplitLines(p) == [p];
    } else {
      assert AllSpace(p);
    }
  }

  /** A single line break becomes one space between the stripped lines. */
  lemma CleanLineBreak(a: string, b: string)
    requires NoLineBreak(a) && b != ""
    ensures CleanParagraph(a + "\n" + b) == Strip(a) + " " + CleanParagraph(b)
  {
    var s := a + "\n" + b;
    assert forall j :: 0 <= j < |a| ==> s[j] == a[j];
    assert s[|a|] == '\n';
    assert NextBreak(s, 0) == |a|;
    assert s[|a| + 1..] == b;
    assert s[..|a|] == a;
    assert SplitLines(s) == [s[..|a|]] + SplitLines(s[|a| + 1..]);
    var rest := StripAll(SplitLines(b));
    assert StripAll([a] + SplitLines(b)) == [Strip(a)] + rest by {
      assert ([a] + SplitLines(b))[1..] == SplitLines(b);
    }
    assert |rest| >= 1;
    assert ([Strip(a)] + rest)[1..] == rest;
  }

  // ---------------------------------------------------------------------
  // Escaping for ReportLab markup

  /** `s.replace(c, rep)` for a one-character pattern. */
  function ReplaceChar(s: string, c: char, rep: string): (r: string)
    ensures c !in rep ==> c !in r
    ensures forall x :: x in r ==> x in s || x in rep
    ensures c !in s ==> r == s
    decreases |s|
  {
    if s == [] then []
    else
      var rest := ReplaceChar(s[1..], c, rep);
      assert forall x :: x in s[1..] ==> x in s;
      (if s[0] == c then rep else [s[0]]) + rest
  }

  lemma {:induction false} ReplaceCharAppend(a: string, b: string, c: char, rep: string)
    ensures ReplaceChar(a + b, c, rep) == ReplaceChar(a, c, rep) + ReplaceChar(b, c, rep)
    decreases |a|
  {
    if a == [] {
      assert a + b == b;
    } else {
      assert (a + b)[0] == a[0];
      assert (a + b)[1..] == a[1..] + b;
      ReplaceCharAppend(a[1..], b, c, rep);
    }
  }

  /** The markup escape as the code writes it: `&` first, then `<`, then `>`. */
  function Escape(s: string): (r: string)
    ensures '<' !in r && '>' !in r
  {
    ReplaceChar(ReplaceChar(ReplaceChar(s, '&', "&amp;"), '<', "&lt;"), '>', "&gt;")
  }

  /** The entity for one character. */
  function EscapeChar(c: char): string {
    if c == '&' then "&amp;" else if c == '<' then "&lt;" else if c == '>' then "&gt;" else [c]
  }

  /** The escape as a single pass over the characters. */
  function EscapeChars(s: string): (r: string)
    ensures '<' !in r && '>' !in r
    ensures |r| >= |s|
    decreases |s|
  {
    if s == [] then [] else EscapeChar(s[0]) + EscapeChars(s[1..])
  }

  lemma EscapeOneChar(c: char)
    ensures Escape([c]) == EscapeChar(c)
  {
    assert '<' !in "&amp;" && '>' !in "&amp;" && '>' !in "&lt;";
    if c == '&' {
      assert ReplaceChar([c], '&', "&amp;") == "&amp;";
    } else if c == '<' {
      assert ReplaceChar([c], '<', "&lt;") == "&lt;";
    } else if c == '>' {
      assert ReplaceChar([c], '>', "&gt;") == "&gt;";
    }
  }

  /** Replacing `&` first means no entity is escaped twice: the three
      replacements in a row act as one pass over the characters. */
  lemma {:induction false} EscapeIsOnePass(s: string)
    ensures Escape(s) == EscapeChars(s)
    decreases |s|
  {
    if s != [] {
      var h, t := [s[0]], s[1..];
      assert s == h + t;
      var s1a, s1b := ReplaceChar(h, '&', "&amp;"), ReplaceChar(t, '&', "&amp;");
      ReplaceCharAppend(h, t, '&', "&amp;");
      var s2a, s2b := ReplaceChar(s1a, '<', "&lt;"), ReplaceChar(s1b, '<', "&lt;");
      ReplaceCharAppend(s1a, s1b, '<', "&lt;");
      ReplaceCharAppend(s2a, s2b, '>', "&gt;");
      EscapeOneChar(s[0]);
      EscapeIsOnePass(t);
    }
  }

  /** Decodes the three entities the escape produces. */
  function Unescape(s: string): string
    decreases |s|
  {
    if s == [] then []
    else if "&amp;" <= s then "&" + Unescape(s[5..])
    else if "&lt;" <= s then "<" + Unescape(s[4..])
    else if "&gt;" <= s then ">" + Unescape(s[4..])
    else [s[0]] + Unescape(s[1..])
  }

  lemma UnescapeStep(c: char, x: string)
    ensures Unescape(EscapeChar(c) + x) == [c] + Unescape(x)
  {
    var e := EscapeChar(c) + x;
    if c == '&' {
      assert e[..5] == "&amp;";
      assert e[5..] == x;
    } else if c == '<' {
      assert e[..4] == "&lt;" && e[1] == 'l';
      assert e[4..] == x;
    } else if c == '>' {
      assert e[..4] == "&gt;" && e[1] == 'g';
      assert e[4..] == x;
    } else {
      assert e[0] == c;
      assert e[1..] == x;
    }
  }

  /** Unescaping the escaped text gives back the paragraph. */
  lemma {:induction false} EscapeRoundTrip(s: string)
    ensures Unescape(Escape(s)) == s
    decreases |s|
  {
    EscapeIsOnePass(s);
    if s != [] {
      UnescapeStep(s[0], EscapeChars(s[1..]));
      EscapeRoundTrip(s[1..]);
      EscapeIsOnePass(s[1..]);
      assert s == [s[0]] + s[1..];
    }
  }

  // ---------------------------------------------------------------------
  // Output paths

  /** `output_root / src_dir.name / rel.with_suffix('.pdf')` for a file found
      at the relative path `rel` under `src_dir`. */
  function OutputPdf(outputRoot: PurePath, srcDir: PurePath, rel: PurePath): (r: PurePath)
    requires Valid(outputRoot) && Valid(srcDir) && Valid(rel)
    requires !rel.absolute && rel.parts != []
    ensures Valid(r) && r.absolute == outputRoot.absolute
    ensures r.parts == outputRoot.parts + (if srcDir.parts == [] then [] else [Name(srcDir)])
                       + rel.parts[..|rel.parts| - 1] + [Stem(Name(rel)) + ".pdf"]
  {
    assert SimpleSuffix(".pdf");
    var dir := if srcDir.parts == [] then PurePath(false, []) else PurePath(false, [Name(srcDir)]);
    var w := WithSuffix(rel, ".pdf").value;
    var n := |rel.parts|;
    assert w.parts == w.parts[..n - 1] + [Name(w)];
    JoinPath(JoinPath(outputRoot, dir), w)
  }

  /** A `.txt` file keeps its directory and stem below the output root and
      the source directory's name. */
  lemma OutputOfTxt(outputRoot: PurePath, srcDir: PurePath, rel: PurePath, stem: string)
    requires Valid(outputRoot) && Valid(srcDir) && Valid(rel)
    requires !rel.absolute && rel.parts != [] && srcDir.parts != []
    requires stem != "" && Name(rel) == stem + ".txt"
    ensures OutputPdf(outputRoot, srcDir, rel).parts
            == outputRoot.parts + [Name(srcDir)] + rel.parts[..|rel.parts| - 1] + [stem + ".pdf"]
  {
    assert SimpleSuffix(".txt");
    SuffixOfStemPlus(stem, ".txt");
  }

  /** Two different `.txt` files under one source directory never get the
      same PDF. */
  lemma OutputInjective(outputRoot: PurePath, srcDir: PurePath, rel1: PurePath, rel2: PurePath,
                        stem1: string, stem2: string)
    requires Valid(outputRoot) && Valid(srcDir) && Valid(rel1) && Valid(rel2)
    requires !rel1.absolute && rel1.parts != [] && !rel2.absolute && rel2.parts != []
    requires stem1 != "" && Name(rel1) == stem1 + ".txt"
    requires stem2 != "" && Name(rel2) == stem2 + ".txt"
    requires OutputPdf(outputRoot, srcDir, rel1) == OutputPdf(outputRoot, srcDir, rel2)
    ensures rel1 == rel2
  {
    assert SimpleSuffix(".txt");
    SuffixOfStemPlus(stem1, ".txt");
    SuffixOfStemPlus(stem2, ".txt");
    assert Stem(Name(rel1)) == stem1 && Stem(Name(rel2)) == stem2;
    var pre := outputRoot.parts + (if srcDir.parts == [] then [] else [Name(srcDir)]);
    var n1, n2 := |rel1.parts|, |rel2.parts|;
    SameFrame(pre, rel1.parts[..n1 - 1], stem1 + ".pdf", rel2.parts[..n2 - 1], stem2 + ".pdf");
    SameSuffixedStem(stem1, stem2, ".pdf");
    assert rel1.parts == rel1.parts[..n1 - 1] + [Name(rel1)];
    assert rel2.parts == rel2.parts[..n2 - 1] + [Name(rel2)];
  }

  lemma SameFrame<T>(pre: seq<T>, a1: seq<T>, x1: T, a2: seq<T>, x2: T)
    requires pre + a1 + [x1] == pre + a2 + [x2]
    ensures a1 == a2 && x1 == x2
  {
    var o := pre + a1 + [x1];
    assert a1 == o[|pre|..|o| - 1];
    assert a2 == (pre + a2 + [x2])[|pre|..|o| - 1];
  }

  lemma SameSuffixedStem(s1: string, s2: string, suffix: string)
    requires s1 + suffix == s2 + suffix
    ensures s1 == s2
  {
    assert s1 == (s1 + suffix)[..|s1|];
    assert s2 == (s2 + suffix)[..|s2|];
  }
}
