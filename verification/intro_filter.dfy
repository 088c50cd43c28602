/**
 The intro filter of the blog-writing helper: generated text loses its first four
 lines, then every later line whose stripped text matches one of the Turkish
 "preamble" patterns (case-insensitively), and the survivors are re-joined and
 left-stripped.

 Each regular expression of the pattern table is one of four shapes over the folded,
 stripped line, so a pattern is a value of `Pattern` rather than a regex to interpret.
 */
module IntroFilter {
  import opened Text
  import opened Seqs

  /** The shapes the preamble regular expressions take. */
  datatype Pattern =
      /** `^W[\s\S]*A[\s\S]*B…[\s\S]*$`: W at the start, then the later words in order. */
    | Lead(word: string, later: seq<string>)
      /** `^W[\s\S]*T[.!]?$`: W at the start, T at the very end, optionally followed by one . or !. */
    | LeadTail(word: string, tail: string)
      /** `^W[.!\s]*N[\s\S]*$`: W, then only dots, bangs and whitespace, then N. */
    | LeadGap(word: string, next: string)
      /** `^W[.!\s]*$`: W followed by dots, bangs and whitespace only. */
    | LeadPunct(word: string)

  /** The class `[.!\s]`. */
  predicate IsGapChar(c: char) {
    c == '.' || c == '!' || IsPySpace(c)
  }

  /** `s` holds the words one after another, without overlap: `[\s\S]*A[\s\S]*B…[\s\S]*`. */
  predicate InOrder(s: string, words: seq<string>)
    decreases |words|
  {
    |words| == 0 ||
    exists i :: 0 <= i <= |s| - |words[0]| && OccursAt(s, words[0], i)
                && InOrder(s[i + |words[0]|..], words[1..])
  }

  /** `T[.!]?$` at the end of `s`. */
  predicate EndsWithTail(s: string, tail: string) {
    EndsWith(s, tail) || EndsWith(s, tail + ".") || EndsWith(s, tail + "!")
  }

  function FoldAll(words: seq<string>): (r: seq<string>)
    ensures |r| == |words|
    ensures forall k :: 0 <= k < |words| ==> r[k] == Fold(words[k])
  {
    seq(|words|, k requires 0 <= k < |words| => Fold(words[k]))
  }

  /** The pattern matches the already folded line `f` (its literals are folded too). */
  predicate MatchesFolded(p: Pattern, f: string) {
    var w := Fold(p.word);
    StartsWith(f, w) &&
    var rest := f[|w|..];
    match p
    case Lead(_, later) => InOrder(rest, FoldAll(later))
    case LeadTail(_, tail) => EndsWithTail(rest, Fold(tail))
    case LeadGap(_, next) =>
      exists k :: 0 <= k <= |rest| && AllIn(rest[..k], IsGapChar) && StartsWith(rest[k..], Fold(next))
    case LeadPunct(_) => AllIn(rest, IsGapChar)
  }

  /** The line as the filter tests it: stripped, then case-folded. */
  function Key(line: string): string {
    Fold(PyStrip(line))
  }

  /** `re.match(pattern, line.strip(), re.IGNORECASE)` succeeds. */
  predicate Matches(p: Pattern, line: string) {
    MatchesFolded(p, Key(line))
  }

  // The entries of the pattern table, named after the line of
  // backend/src/gemini/blog-creation-with-ai.py that holds the regex. Where a regex has
  // `[,.!\s]*`, `(aşağıda)?` or `[.!\s]*` directly before `[\s\S]*`, the any-character
  // run absorbs it, and the entry is written with the shape that remains.
  const P19 := LeadTail("Elbette", "bulunmaktadır")
  const P20 := LeadTail("Elbette", "verilmiştir")
  const P21 := Lead("Elbette", ["aşağıda"])
  const P22 := LeadTail("Aşağıda", "bulunmaktadır")
  const P23 := LeadTail("İşte", "bulunmaktadır")
  const P24 := Lead("İşte", [])
  const P25 := Lead("Tabii ki", [])
  const P26 := Lead("Yapay zekanın", ["etkilerini", "anlatan", "yazı"])
  const P27 := Lead("Aşağıda", [])
  const P28 := Lead("Bilgilendirici bir blog yazısı", [])
  const P29 := LeadGap("Harika bir fikir", "İşte")
  const P30 := Lead("Harika bir fikir", [])
  const P31 := Lead("İşte kahve tutkunlarının yüzünü güldürecek", [])
  const P32 := Lead("İşte", ["yazısı"])
  const P33 := Lead("İşte", ["blog yazısı"])
  const P34 := Lead("İşte", [])
  const P35 := LeadTail("Hazırsanız", "başlayalım")
  const P36 := Lead("Buyurun", [])
  const P37 := LeadTail("Şimdi", "başlayalım")
  const P38 := LeadTail("Gelin", "keşfedelim")
  const P39 := LeadTail("Gelin", "bakalım")
  const P40 := LeadTail("Haydi", "başlayalım")
  const P41 := Lead("Hazırsanız", [])
  const P42 := Lead("Haydi", [])
  const P43 := LeadPunct("Buyurun")

  /** The pattern table, in source order. */
  const IntroPatterns: seq<Pattern> := [
    P19, P20, P21, P22, P23, P24, P25, P26, P27, P28, P29, P30, P31,
    P32, P33, P34, P35, P36, P37, P38, P39, P40, P41, P42, P43
  ]

  /** Some pattern of the list matches the line, tried in list order. */
  predicate MatchesAny(patterns: seq<Pattern>, line: string)
    decreases |patterns|
  {
    |patterns| > 0 && (Matches(patterns[0], line) || MatchesAny(patterns[1..], line))
  }

  /** Trying the patterns in order finds a match exactly when some entry matches. */
  lemma {:induction false} MatchesAnyIff(patterns: seq<Pattern>, line: string)
    ensures MatchesAny(patterns, line) <==> exists i :: 0 <= i < |patterns| && Matches(patterns[i], line)
    decreases |patterns|
  {
    if |patterns| > 0 {
      var rest := patterns[1..];
      MatchesAnyIff(rest, line);
      if MatchesAny(rest, line) {
        var i :| 0 <= i < |rest| && Matches(rest[i], line);
        assert Matches(patterns[i + 1], line);
      }
      if exists i :: 0 <= i < |patterns| && Matches(patterns[i], line) {
        var i :| 0 <= i < |patterns| && Matches(patterns[i], line);
        if i > 0 {
          assert rest[i - 1] == patterns[i];
        }
      }
    }
  }

  /** Lines with the same key meet the same patterns. */
  lemma {:induction false} SameKeySameMatches(patterns: seq<Pattern>, a: string, b: string)
    requires Key(a) == Key(b)
    ensures MatchesAny(patterns, a) == MatchesAny(patterns, b)
    decreases |patterns|
  {
    if |patterns| > 0 {
      SameKeySameMatches(patterns[1..], a, b);
    }
  }

  /** The line is filtered out when it appears after the header. */
  predicate IsPreamble(line: string) {
    MatchesAny(IntroPatterns, line)
  }

  /** The number of lines dropped unconditionally. */
  const HeaderLines: nat := 4

  /** Python's `lines[4:]`. */
  function AfterHeader(lines: seq<string>): seq<string> {
    if |lines| <= HeaderLines then [] else lines[HeaderLines..]
  }

  /** The lines after the header that the pattern filter keeps, in their order. */
  function Survivors(lines: seq<string>): (kept: seq<string>)
    ensures IsSubseq(kept, AfterHeader(lines))
    ensures forall x :: x in kept <==> x in AfterHeader(lines) && !IsPreamble(x)
    ensures forall x :: multiset(kept)[x] == if IsPreamble(x) then 0 else multiset(AfterHeader(lines))[x]
  {
    WithoutKeeps(AfterHeader(lines), IsPreamble);
    WithoutMultiset(AfterHeader(lines), IsPreamble);
    Without(AfterHeader(lines), IsPreamble)
  }

  /** The filter with any line test in the place of the pattern table. */
  function CleanWith(text: string, drop: string -> bool): string {
    PyLStrip(Join(Without(AfterHeader(Split(text)), drop)))
  }

  /**
   `clean_intro`: the survivors re-joined with newlines and left-stripped. The result
   never starts with whitespace, is empty when the text has at most four lines, and
   has at most four lines fewer than the text otherwise.
   */
  function CleanIntro(text: string): (cleaned: string)
    ensures cleaned == PyLStrip(Join(Survivors(Split(text))))
    ensures cleaned == [] || !IsPySpace(cleaned[0])
    ensures |Split(text)| <= HeaderLines ==> cleaned == []
    ensures |Split(text)| > HeaderLines ==> |Split(cleaned)| <= |Split(text)| - HeaderLines
  {
    var cleaned := CleanWith(text, IsPreamble);
    LineBound(Split(text), cleaned);
    cleaned
  }

  lemma LineBound(lines: seq<string>, cleaned: string)
    requires NoNewline(lines) && cleaned == PyLStrip(Join(Survivors(lines)))
    ensures |lines| > HeaderLines ==> |Split(cleaned)| <= |lines| - HeaderLines
  {
    if |lines| > HeaderLines {
      SurvivorsShape(lines);
      JoinStripLines(Survivors(lines));
    }
  }

  /** The survivors are no more than the lines after the header, and hold no newline. */
  lemma SurvivorsShape(lines: seq<string>)
    requires NoNewline(lines) && |lines| > HeaderLines
    ensures |Survivors(lines)| <= |lines| - HeaderLines && NoNewline(Survivors(lines))
  {
    var kept := Survivors(lines);
    SubseqLength(kept, AfterHeader(lines));
    forall k | 0 <= k < |kept| ensures '\n' !in kept[k] {
      SubseqMember(kept, AfterHeader(lines), k);
    }
  }

  /** A matching entry of the table drops the line. */
  lemma PreambleHit(line: string, i: nat)
    requires i < |IntroPatterns| && Matches(IntroPatterns[i], line)
    ensures IsPreamble(line)
  {
    MatchesAnyIff(IntroPatterns, line);
  }

  /** A line that is kept meets no entry of the table. */
  lemma PreambleMiss(line: string, i: nat)
    requires i < |IntroPatterns| && !IsPreamble(line)
    ensures !Matches(IntroPatterns[i], line)
  {
    MatchesAnyIff(IntroPatterns, line);
  }

  // ----- the pattern table -----

  /** The table without the entries that another entry subsumes. */
  const Essential: seq<Pattern> := [
    P19, P20, P21, P24, P25, P26, P27, P28, P30, P36, P37, P38, P39, P41, P42
  ]

  /** For each entry of the table, the place in `Essential` of the entry that implies it. */
  const KeptAs: seq<nat> := [0, 1, 2, 6, 3, 3, 4, 5, 6, 7, 8, 8, 3, 3, 3, 3, 13, 9, 10, 11, 12, 14, 13, 14, 9]

  /** For each kept entry, its place in the table. */
  const EssentialAt: seq<nat> := [0, 1, 2, 5, 6, 7, 8, 9, 11, 17, 18, 19, 20, 22, 23]

  lemma EssentialInTable(j: nat)
    requires j < |Essential|
    ensures EssentialAt[j] < |IntroPatterns| && IntroPatterns[EssentialAt[j]] == Essential[j]
  {
  }

  /** Every pattern demands its lead word at the start of the stripped, folded line. */
  lemma MatchStartsWithLead(p: Pattern, line: string)
    requires Matches(p, line)
    ensures Matches(Lead(p.word, []), line)
  {
  }

  /** A longer lead word implies any lead word it starts with. */
  lemma LongerLead(w: string, v: string, line: string)
    requires StartsWith(w, v) && Matches(Lead(w, []), line)
    ensures Matches(Lead(v, []), line)
  {
    var f := Key(line);
    assert Fold(w)[..|v|] == Fold(v);
    assert f[..|v|] == f[..|w|][..|v|];
  }

  /** P31's lead word starts with P24's. */
  lemma P31Shape()
    ensures P31.Lead? && P31.later == [] && StartsWith(P31.word, P24.word)
  {
    var w := P31.word;
    assert w[0] == 'İ' && w[1] == 'ş' && w[2] == 't' && w[3] == 'e';
    assert w[..4] == P24.word;
  }

  /**
   `q` matches every line `p` matches, read off the shapes: the same entry, or a bare
   lead entry whose word starts `p`'s.
   */
  predicate Covers(q: Pattern, p: Pattern) {
    q == p || (q.Lead? && q.later == [] && StartsWith(p.word, q.word))
  }

  lemma CoveredMatch(p: Pattern, q: Pattern, line: string)
    requires Covers(q, p) && Matches(p, line)
    ensures Matches(q, line)
  {
    if q != p {
      MatchStartsWithLead(p, line);
      LongerLead(p.word, q.word, line);
    }
  }

  /** The kept entry `KeptAs` names for an entry of the table covers it. */
  lemma KeptAsCovers(i: nat)
    requires i < |IntroPatterns|
    ensures KeptAs[i] < |Essential| && Covers(Essential[KeptAs[i]], IntroPatterns[i])
  {
    if i < 13 {
      KeptAsCoversFirst(i);
    } else {
      KeptAsCoversRest(i);
    }
  }

  lemma KeptAsCoversFirst(i: nat)
    requires i < 13
    ensures KeptAs[i] < |Essential| && Covers(Essential[KeptAs[i]], IntroPatterns[i])
  {
    match i
    case 0 =>
    case 1 =>
    case 2 =>
    case 3 => assert StartsWith(P22.word, P27.word);
    case 4 => assert StartsWith(P23.word, P24.word);
    case 5 =>
    case 6 =>
    case 7 =>
    case 8 =>
    case 9 =>
    case 10 => assert StartsWith(P29.word, P30.word);
    case 11 =>
    case 12 => P31Shape();
    case _ => assert false;
  }

  lemma KeptAsCoversRest(i: nat)
    requires 13 <= i < |IntroPatterns|
    ensures KeptAs[i] < |Essential| && Covers(Essential[KeptAs[i]], IntroPatterns[i])
  {
    match i
    case 13 => assert StartsWith(P32.word, P24.word);
    case 14 => assert StartsWith(P33.word, P24.word);
    case 15 =>
    case 16 => assert StartsWith(P35.word, P41.word);
    case 17 =>
    case 18 =>
    case 19 =>
    case 20 =>
    case 21 => assert StartsWith(P40.word, P42.word);
    case 22 =>
    case 23 =>
    case 24 => assert StartsWith(P43.word, P36.word);
    case _ => assert false;
  }

  /** Each entry of the table is implied by the kept entry `KeptAs` names for it. */
  lemma Subsumed(i: nat, line: string)
    requires i < |IntroPatterns| && Matches(IntroPatterns[i], line)
    ensures KeptAs[i] < |Essential| && Matches(Essential[KeptAs[i]], line)
  {
    KeptAsCovers(i);
    CoveredMatch(IntroPatterns[i], Essential[KeptAs[i]], line);
  }

  /**
   The ten redundant entries change nothing: a line matches the full table exactly
   when it matches the fifteen entries that remain.
   */
  lemma EssentialEquivalent(line: string)
    ensures IsPreamble(line) <==> MatchesAny(Essential, line)
  {
    if IsPreamble(line) {
      assert MatchesAny(Essential, line) by {
        MatchesAnyIff(IntroPatterns, line);
        var i :| 0 <= i < |IntroPatterns| && Matches(IntroPatterns[i], line);
        Subsumed(i, line);
        MatchesAnyIff(Essential, line);
      }
    }
    if MatchesAny(Essential, line) {
      assert IsPreamble(line) by {
        MatchesAnyIff(Essential, line);
        var j :| 0 <= j < |Essential| && Matches(Essential[j], line);
        EssentialInTable(j);
        PreambleHit(line, EssentialAt[j]);
      }
    }
  }

  // ----- which lines are dropped -----

  /** A match fixes the first character of the folded, stripped line. */
  lemma MatchInitial(p: Pattern, line: string)
    requires Matches(p, line) && |p.word| > 0
    ensures |Key(line)| > 0 && Key(line)[0] == FoldChar(p.word[0])
  {
    assert Key(line)[0] == Fold(p.word)[0];
  }

  /** The folded first letters of the kept entries' lead words, in the order of `Essential`. */
  const Initials := "eeeityabhbşgghh"

  lemma EssentialInitials(j: nat)
    requires j < |Essential|
    ensures |Essential[j].word| > 0 && FoldChar(Essential[j].word[0]) == Initials[j]
  {
  }

  /** A dropped line is matched by a kept entry whose lead word starts like the line. */
  lemma MatchedByInitial(line: string) returns (j: nat)
    requires IsPreamble(line)
    ensures j < |Essential| && Matches(Essential[j], line)
    ensures |Key(line)| > 0 && Key(line)[0] == Initials[j]
  {
    assert exists k :: 0 <= k < |Essential| && Matches(Essential[k], line) by {
      EssentialEquivalent(line);
      MatchesAnyIff(Essential, line);
    }
    j :| j < |Essential| && Matches(Essential[j], line);
    EssentialInitials(j);
    MatchInitial(Essential[j], line);
  }

  /** Only lines whose folded text starts with one of the initials can be dropped. */
  lemma PreambleInitials(line: string)
    requires IsPreamble(line)
    ensures |Key(line)| > 0 && Key(line)[0] in Initials
  {
    var j := MatchedByInitial(line);
  }

  /** Whitespace-only (and empty) lines survive the pattern filter. */
  lemma BlankLineSurvives(line: string)
    requires AllIn(line, IsPySpace)
    ensures !IsPreamble(line)
  {
    TrimEmptyIffAllSpace(line, IsPySpace);
    if IsPreamble(line) {
      PreambleInitials(line);
    }
  }

  /** The test ignores case: lines that fold alike are dropped alike. */
  lemma IgnoresCase(a: string, b: string)
    requires Fold(a) == Fold(b)
    ensures IsPreamble(a) <==> IsPreamble(b)
  {
    FoldStrip(a);
    FoldStrip(b);
    SameKeySameMatches(IntroPatterns, a, b);
  }

  /** The lead words that drop a line whatever follows them. */
  const UnconditionalLeads: seq<string> := [
    "İşte", "Tabii ki", "Aşağıda", "Bilgilendirici bir blog yazısı",
    "Harika bir fikir", "Buyurun", "Hazırsanız", "Haydi"
  ]

  /** For each unconditional lead word, the place in the table of its bare lead entry. */
  const UnconditionalAt: seq<nat> := [5, 6, 8, 9, 11, 17, 22, 23]

  lemma LeadInTable(k: nat)
    requires k < |UnconditionalLeads|
    ensures UnconditionalAt[k] < |IntroPatterns| && IntroPatterns[UnconditionalAt[k]] == Lead(UnconditionalLeads[k], [])
  {
  }

  /** A bare lead pattern matches every line that starts with its word. */
  lemma LeadMatches(w: string, line: string)
    requires StartsWith(Key(line), Fold(w))
    ensures Matches(Lead(w, []), line)
  {
  }

  /** A line whose stripped text starts with an unconditional lead word is always dropped. */
  lemma UnconditionalLeadDrops(k: nat, line: string)
    requires k < |UnconditionalLeads| && StartsWith(Key(line), Fold(UnconditionalLeads[k]))
    ensures IsPreamble(line)
  {
    LeadInTable(k);
    LeadMatches(UnconditionalLeads[k], line);
    PreambleHit(line, UnconditionalAt[k]);
  }

  /** One later word in order is an occurrence of that word. */
  lemma InOrderOne(s: string, w: string)
    ensures InOrder(s, [w]) <==> Contains(s, w)
  {
    assert [w][0] == w && [w][1..] == [];
    if Contains(s, w) {
      var i :| 0 <= i <= |s| - |w| && OccursAt(s, w, i);
      assert InOrder(s[i + |w|..], [w][1..]);
    }
  }

  /** The kept entries that share a first letter. */
  lemma SameInitial(j: nat)
    requires j < |Essential|
    ensures Initials[j] == 'e' ==> j < 3
    ensures Initials[j] == 'ş' ==> j == 10
    ensures Initials[j] == 'g' ==> j == 11 || j == 12
    ensures Initials[j] == 'y' ==> j == 5
  {
  }

  /** What it takes for a lead-and-tail entry to match. */
  lemma LeadTailMeans(w: string, t: string, line: string)
    ensures Matches(LeadTail(w, t), line) <==>
              StartsWith(Key(line), Fold(w)) && EndsWithTail(Key(line)[|w|..], Fold(t))
  {
  }

  lemma FoldAllOne(x: string)
    ensures FoldAll([x]) == [Fold(x)]
  {
  }

  /** What it takes for a lead entry with one later word to match. */
  lemma LeadOneMeans(w: string, x: string, line: string)
    ensures Matches(Lead(w, [x]), line) <==>
              StartsWith(Key(line), Fold(w)) && Contains(Key(line)[|w|..], Fold(x))
  {
    if StartsWith(Key(line), Fold(w)) {
      InOrderOne(Key(line)[|w|..], Fold(x));
      FoldAllOne(x);
    }
  }

  /** The folded lead word's first letter is the line's. */
  lemma LeadInitial(line: string, w: string)
    requires |w| > 0 && StartsWith(Key(line), Fold(w))
    ensures |Key(line)| > 0 && Key(line)[0] == FoldChar(w[0])
  {
    assert Key(line)[0] == Key(line)[..|w|][0];
  }

  /** Where the conditional entries sit in the table. */
  lemma ConditionalInTable()
    ensures IntroPatterns[0] == P19 && IntroPatterns[1] == P20 && IntroPatterns[2] == P21
    ensures IntroPatterns[7] == P26 && IntroPatterns[18] == P37
    ensures IntroPatterns[19] == P38 && IntroPatterns[20] == P39
  {
  }

  /** Where the conditional entries sit among the kept entries. */
  lemma ConditionalKept()
    ensures Essential[0] == P19 && Essential[1] == P20 && Essential[2] == P21
    ensures Essential[5] == P26 && Essential[10] == P37 && Essential[11] == P38 && Essential[12] == P39
  {
  }

  /** A line only `P19`, `P20` and `P21` could match is dropped exactly when one of them does. */
  lemma ElbetteGroup(line: string)
    requires |Key(line)| > 0 && Key(line)[0] == 'e'
    ensures IsPreamble(line) <==> Matches(P19, line) || Matches(P20, line) || Matches(P21, line)
  {
    if IsPreamble(line) {
      var j := MatchedByInitial(line);
      SameInitial(j);
      ConditionalKept();
      if j == 0 {
        assert Matches(P19, line);
      } else if j == 1 {
        assert Matches(P20, line);
      } else {
        assert Matches(P21, line);
      }
    }
    if Matches(P19, line) {
      ConditionalInTable();
      PreambleHit(line, 0);
    }
    if Matches(P20, line) {
      ConditionalInTable();
      PreambleHit(line, 1);
    }
    if Matches(P21, line) {
      ConditionalInTable();
      PreambleHit(line, 2);
    }
  }


  /** Under "Elbette", the line is dropped only with a closing "bulunmaktadır"/"verilmiştir" or a later "aşağıda". */
  lemma ElbetteNeedsTail(line: string)
    requires StartsWith(Key(line), Fold("Elbette"))
    ensures var rest := Key(line)[7..];
            IsPreamble(line) <==>
              || EndsWithTail(rest, Fold("bulunmaktadır"))
              || EndsWithTail(rest, Fold("verilmiştir"))
              || Contains(rest, Fold("aşağıda"))
  {
    LeadInitial(line, "Elbette");
    ElbetteGroup(line);
    LeadTailMeans("Elbette", "bulunmaktadır", line);
    LeadTailMeans("Elbette", "verilmiştir", line);
    LeadOneMeans("Elbette", "aşağıda", line);
  }

  /** A line only `P37` could match is dropped exactly when it does. */
  lemma SimdiGroup(line: string)
    requires |Key(line)| > 0 && Key(line)[0] == 'ş'
    ensures IsPreamble(line) <==> Matches(P37, line)
  {
    if IsPreamble(line) {
      var j := MatchedByInitial(line);
      SameInitial(j);
      ConditionalKept();
    }
    if Matches(P37, line) {
      ConditionalInTable();
      PreambleHit(line, 18);
    }
  }


  /** Under "Şimdi", the line is dropped only when it closes with "başlayalım". */
  lemma SimdiNeedsTail(line: string)
    requires StartsWith(Key(line), Fold("Şimdi"))
    ensures IsPreamble(line) <==> EndsWithTail(Key(line)[5..], Fold("başlayalım"))
  {
    LeadInitial(line, "Şimdi");
    SimdiGroup(line);
    LeadTailMeans("Şimdi", "başlayalım", line);
  }

  /** A line only `P38` and `P39` could match is dropped exactly when one of them does. */
  lemma GelinGroup(line: string)
    requires |Key(line)| > 0 && Key(line)[0] == 'g'
    ensures IsPreamble(line) <==> Matches(P38, line) || Matches(P39, line)
  {
    if IsPreamble(line) {
      var j := MatchedByInitial(line);
      SameInitial(j);
      ConditionalKept();
      if j == 11 {
        assert Matches(P38, line);
      } else {
        assert Matches(P39, line);
      }
    }
    if Matches(P38, line) {
      ConditionalInTable();
      PreambleHit(line, 19);
    }
    if Matches(P39, line) {
      ConditionalInTable();
      PreambleHit(line, 20);
    }
  }


  /** Under "Gelin", the line is dropped only when it closes with "keşfedelim" or "bakalım". */
  lemma GelinNeedsTail(line: string)
    requires StartsWith(Key(line), Fold("Gelin"))
    ensures var rest := Key(line)[5..];
            IsPreamble(line) <==>
              EndsWithTail(rest, Fold("keşfedelim")) || EndsWithTail(rest, Fold("bakalım"))
  {
    LeadInitial(line, "Gelin");
    GelinGroup(line);
    LeadTailMeans("Gelin", "keşfedelim", line);
    LeadTailMeans("Gelin", "bakalım", line);
  }

  /** A line only `P26` could match is dropped exactly when it does. */
  lemma YapayZekaGroup(line: string)
    requires |Key(line)| > 0 && Key(line)[0] == 'y'
    ensures IsPreamble(line) <==> Matches(P26, line)
  {
    if IsPreamble(line) {
      var j := MatchedByInitial(line);
      SameInitial(j);
      ConditionalKept();
    }
    if Matches(P26, line) {
      ConditionalInTable();
      PreambleHit(line, 7);
    }
  }

  /** Under "Yapay zekanın", the line is dropped only when "etkilerini", "anlatan", "yazı" follow in order. */
  lemma YapayZekaNeedsWords(line: string)
    requires StartsWith(Key(line), Fold("Yapay zekanın"))
    ensures IsPreamble(line) <==>
              InOrder(Key(line)[13..], FoldAll(["etkilerini", "anlatan", "yazı"]))
  {
    LeadInitial(line, "Yapay zekanın");
    YapayZekaGroup(line);
  }

  // ----- worked examples -----

  /** A word holding a character the text lacks does not occur in it. */
  lemma MissingCharNoOccurrence(s: string, w: string, k: int)
    requires 0 <= k < |w| && w[k] !in s
    ensures !Contains(s, w)
  {
    forall i | 0 <= i <= |s| - |w|
      ensures !OccursAt(s, w, i)
    {
      assert s[i..i + |w|][k] == s[i + k];
    }
  }

  /** The key of a line with non-space ends is the fold of its pieces. */
  lemma KeyOfPieces(lead: string, more: string)
    requires |lead| > 0 && |more| > 0
    requires !IsPySpace(lead[0]) && !IsPySpace(more[|more| - 1])
    ensures Key(lead + more) == Fold(lead) + Fold(more)
    ensures StartsWith(Key(lead + more), Fold(lead))
    ensures Key(lead + more)[|lead|..] == Fold(more)
  {
    var line := lead + more;
    assert line[0] == lead[0] && line[|line| - 1] == more[|more| - 1];
    StripNoop(line, IsPySpace);
    FoldAppend(lead, more);
  }

  /** The facts about the remainder that rule out every "Elbette" tail. */
  lemma NoElbetteTail(rest: string)
    requires |rest| > 0 && rest[|rest| - 1] !in "r.!" && 'ş' !in rest
    ensures !EndsWithTail(rest, Fold("bulunmaktadır"))
    ensures !EndsWithTail(rest, Fold("verilmiştir"))
    ensures !Contains(rest, Fold("aşağıda"))
  {
    assert Fold("bulunmaktadır")[12] == 'r' && Fold("verilmiştir")[10] == 'r';
    assert Fold("aşağıda")[1] == 'ş';
    MissingCharNoOccurrence(rest, Fold("aşağıda"), 1);
  }

  /** The remainder after the seven letters of the lead. */
  lemma ElbetteSplit(more: string)
    requires |more| > 0 && !IsPySpace(more[|more| - 1])
    ensures StartsWith(Key("Elbette" + more), Fold("Elbette"))
    ensures Key("Elbette" + more)[7..] == Fold(more)
  {
    var lead := "Elbette";
    assert lead[0] == 'E' && |Fold(lead)| == 7;
    KeyOfPieces(lead, more);
  }

  /**
   * A line led by "Elbette" whose remainder neither closes on `r`, `.` or `!`
   * nor holds an `ş` (in either case) cannot carry any of the required tails, so it is kept.
   */
  lemma ElbetteKeptWhen(more: string)
    requires |more| > 0 && !IsPySpace(more[|more| - 1])
    requires FoldChar(more[|more| - 1]) !in "r.!" && 'ş' !in Fold(more)
    ensures !IsPreamble("Elbette" + more)
  {
    var line := "Elbette" + more;
    assert StartsWith(Key(line), Fold("Elbette"))
        && !EndsWithTail(Key(line)[7..], Fold("bulunmaktadır"))
        && !EndsWithTail(Key(line)[7..], Fold("verilmiştir"))
        && !Contains(Key(line)[7..], Fold("aşağıda")) by {
      ElbetteSplit(more);
      NoElbetteTail(Fold(more));
    }
    LacksElbetteTail(line);
  }

  /** A line led by "Elbette" without any of the required tails is kept. */
  lemma LacksElbetteTail(line: string)
    requires StartsWith(Key(line), Fold("Elbette"))
    requires !EndsWithTail(Key(line)[7..], Fold("bulunmaktadır"))
    requires !EndsWithTail(Key(line)[7..], Fold("verilmiştir"))
    requires !Contains(Key(line)[7..], Fold("aşağıda"))
    ensures !IsPreamble(line)
  {
    ElbetteNeedsTail(line);
  }

  /** Folding keeps a closing piece, and leaves the full stop alone. */
  lemma FoldKeepsEnding(middle: string, tail: string)
    ensures EndsWith(Fold(middle + (tail + ".")), Fold(tail) + ".")
  {
    FoldAppend(middle, tail + ".");
    FoldAppend(tail, ".");
    assert Fold(".") == ".";
  }

  /** A line led by "Elbette" and closed by "bulunmaktadır." is dropped, whatever lies between. */
  lemma ElbetteDroppedWhen(middle: string)
    ensures IsPreamble("Elbette" + middle + "bulunmaktadır.")
  {
    var tail := "bulunmaktadır";
    var more := middle + (tail + ".");
    var line := "Elbette" + more;
    assert line == "Elbette" + middle + "bulunmaktadır.";
    assert StartsWith(Key(line), Fold("Elbette")) && EndsWithTail(Key(line)[7..], Fold(tail)) by {
      assert more[|more| - 1] == '.';
      ElbetteSplit(more);
      FoldKeepsEnding(middle, tail);
    }
    ElbetteNeedsTail(line);
  }

  /** "Elbette güzel bir gün" has the lead but none of the required tails. */
  lemma ElbetteWithoutTailKept()
    ensures !IsPreamble("Elbette güzel bir gün")
  {
    var more := " güzel bir gün";
    assert "Elbette" + more == "Elbette güzel bir gün";
    ElbetteKeptWhen(more);
  }

  /** "Elbette, aşağıda bir yazı bulunmaktadır." (written in its three parts) is dropped. */
  lemma ElbetteWithTailDropped()
    ensures IsPreamble("Elbette" + ", aşağıda bir yazı " + "bulunmaktadır.")
  {
    ElbetteDroppedWhen(", aşağıda bir yazı ");
  }

  /** Upper-casing the lead of a preamble does not save it. */
  lemma ShoutedPreambleDropped(middle: string)
    ensures IsPreamble("ELBETTE" + middle + "bulunmaktadır.")
  {
    var more := middle + "bulunmaktadır.";
    var loud, quiet := "ELBETTE" + more, "Elbette" + more;
    assert loud == "ELBETTE" + middle + "bulunmaktadır.";
    assert quiet == "Elbette" + middle + "bulunmaktadır.";
    assert Fold(loud) == Fold(quiet) by {
      FoldAppend("ELBETTE", more);
      FoldAppend("Elbette", more);
      assert Fold("ELBETTE") == Fold("Elbette");
    }
    ElbetteDroppedWhen(middle);
    IgnoresCase(loud, quiet);
  }

  /** Every line led by "İşte" is a preamble line. */
  lemma IsteLeadDrops(more: string)
    requires |more| > 0 && !IsPySpace(more[|more| - 1])
    ensures IsPreamble("İşte" + more)
  {
    var lead := "İşte";
    assert StartsWith(Key(lead + more), Fold(lead)) by {
      assert lead[0] == 'İ';
      KeyOfPieces(lead, more);
    }
    assert UnconditionalLeads[0] == lead;
    UnconditionalLeadDrops(0, lead + more);
  }

  /** "İşte blog yazınız:" is a preamble line. */
  lemma IsteIsPreamble()
    ensures IsPreamble("İşte blog yazınız:")
  {
    var more := " blog yazınız:";
    assert "İşte" + more == "İşte blog yazınız:";
    IsteLeadDrops(more);
  }

  /** A line whose key starts with none of the initials is kept. */
  lemma KeptByInitial(c: char, more: string)
    requires !IsPySpace(c) && FoldChar(c) !in Initials
    requires |more| > 0 && !IsPySpace(more[|more| - 1])
    ensures !IsPreamble([c] + more)
  {
    var line := [c] + more;
    assert |Key(line)| > 0 && Key(line)[0] == FoldChar(c) by {
      KeyOfPieces([c], more);
      assert Fold([c])[0] == FoldChar(c);
    }
    if IsPreamble(line) {
      PreambleInitials(line);
    }
  }

  /** "Kahve hakkında:" starts with none of the initials, so it is kept. */
  lemma KahveIsKept()
    ensures !IsPreamble("Kahve hakkında:")
  {
    var more := "ahve hakkında:";
    assert ['K'] + more == "Kahve hakkında:";
    KeptByInitial('K', more);
  }

  // ----- whole-text scenarios -----

  /** A text of four header lines and two more lines splits back into those lines. */
  lemma SplitsIntoSix(header: seq<string>, first: string, second: string)
    requires |header| == HeaderLines && NoNewline(header)
    requires '\n' !in first && '\n' !in second
    ensures Split(Join(header + [first, second])) == header + [first, second]
  {
    var lines := header + [first, second];
    forall k | 0 <= k < |lines|
      ensures '\n' !in lines[k]
    {
      if k < |header| {
        assert lines[k] == header[k];
      }
    }
    SplitJoin(lines);
  }

  /**
   Of four header lines and two more, the filter keeps the later lines the test spares,
   in their order, whatever the test is.
   */
  lemma SixLines(header: seq<string>, first: string, second: string, drop: string -> bool)
    requires |header| == HeaderLines && NoNewline(header)
    requires '\n' !in first && '\n' !in second
    ensures CleanWith(Join(header + [first, second]), drop)
            == PyLStrip(Join((if drop(first) then [] else [first]) + (if drop(second) then [] else [second])))
  {
    var lines := header + [first, second];
    assert Split(Join(lines)) == lines by { SplitsIntoSix(header, first, second); }
    assert AfterHeader(lines) == [first] + [second];
    WithoutSnoc([], first, drop);
    WithoutSnoc([first], second, drop);
  }

  /** A text left-stripped of nothing stays as it is. */
  lemma LStripNoop(s: string)
    requires s == [] || !IsPySpace(s[0])
    ensures PyLStrip(s) == s
  {
  }

  /** Four header lines, one line the test drops and a body: only the body is left. */
  lemma DroppedLineRemoved(header: seq<string>, intro: string, body: string, drop: string -> bool)
    requires |header| == HeaderLines && NoNewline(header)
    requires '\n' !in intro && drop(intro)
    requires '\n' !in body && !drop(body)
    requires body == [] || !IsPySpace(body[0])
    ensures CleanWith(Join(header + [intro, body]), drop) == body
  {
    SixLines(header, intro, body, drop);
    assert [] + [body] == [body];
    assert Join([body]) == body;
    LStripNoop(body);
  }

  /** Four header lines, then two lines the test spares: both stay, joined by a newline. */
  lemma SparedLinesKept(header: seq<string>, heading: string, body: string, drop: string -> bool)
    requires |header| == HeaderLines && NoNewline(header)
    requires '\n' !in heading && !drop(heading)
    requires '\n' !in body && !drop(body)
    requires |heading| > 0 && !IsPySpace(heading[0])
    ensures CleanWith(Join(header + [heading, body]), drop) == heading + "\n" + body
  {
    SixLines(header, heading, body, drop);
    var joined := heading + "\n" + body;
    assert [heading] + [body] == [heading, body];
    assert Join([heading, body]) == joined;
    assert joined[0] == heading[0];
    LStripNoop(joined);
  }

  /** Four header lines, one preamble line and a body: only the body is left. */
  lemma HeaderAndPreambleRemoved(header: seq<string>, intro: string, body: string)
    requires |header| == HeaderLines && NoNewline(header)
    requires '\n' !in intro && IsPreamble(intro)
    requires '\n' !in body && !IsPreamble(body)
    requires body == [] || !IsPySpace(body[0])
    ensures CleanIntro(Join(header + [intro, body])) == body
  {
    DroppedLineRemoved(header, intro, body, IsPreamble);
  }

  /** Four header lines, then an ordinary heading and a body: both stay. */
  lemma OrdinaryHeadingKept(header: seq<string>, heading: string, body: string)
    requires |header| == HeaderLines && NoNewline(header)
    requires '\n' !in heading && !IsPreamble(heading)
    requires '\n' !in body && !IsPreamble(body)
    requires |heading| > 0 && !IsPySpace(heading[0])
    ensures CleanIntro(Join(header + [heading, body])) == heading + "\n" + body
  {
    SparedLinesKept(header, heading, body, IsPreamble);
  }
}
