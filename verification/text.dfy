/**
 Character classes, whitespace trimming, case folding and line splitting shared by
 the Python intro filter and the TypeScript handlers and validators.

 Python and JavaScript disagree on what counts as whitespace, so each language gets
 its own class; every trimming function is defined once over a class parameter.
 */
module Text {

  datatype Option<+T> = None | Some(value: T)

  /** Python's str.isspace(): the class used by str.strip()/lstrip() and by \s in a str pattern. */
  predicate IsPySpace(c: char) {
    || c == ' ' || c == '\t' || c == '\n' || c == '\U{B}' || c == '\U{C}' || c == '\r'
    || ('\U{1C}' <= c <= '\U{1F}') || c == '\U{85}' || c == '\U{A0}' || c == '\U{1680}'
    || ('\U{2000}' <= c <= '\U{200A}') || c == '\U{2028}' || c == '\U{2029}'
    || c == '\U{202F}' || c == '\U{205F}' || c == '\U{3000}'
  }

  /** ECMAScript WhiteSpace plus LineTerminator: the class of String.prototype.trim() and of \s. */
  predicate IsJsSpace(c: char) {
    || c == ' ' || c == '\t' || c == '\n' || c == '\U{B}' || c == '\U{C}' || c == '\r'
    || c == '\U{A0}' || c == '\U{1680}' || ('\U{2000}' <= c <= '\U{200A}')
    || c == '\U{2028}' || c == '\U{2029}' || c == '\U{202F}' || c == '\U{205F}'
    || c == '\U{3000}' || c == '\U{FEFF}'
  }

  /** JavaScript's \w: [A-Za-z0-9_]. */
  predicate IsWordChar(c: char) {
    ('a' <= c <= 'z') || ('A' <= c <= 'Z') || ('0' <= c <= '9') || c == '_'
  }

  /** Every character of `s` belongs to the class. */
  predicate AllIn(s: string, inClass: char -> bool) {
    forall i :: 0 <= i < |s| ==> inClass(s[i])
  }

  /** A character of the Basic Multilingual Plane: one UTF-16 code unit. */
  predicate InBmp(c: char) {
    c as int <= 0xFFFF
  }

  /**
   * JavaScript's `s.length`: the number of UTF-16 code units, two (a
   * surrogate pair) for each character outside the Basic Multilingual Plane.
   * It equals the number of characters exactly when all of them lie inside it.
   */
  function Utf16Length(s: string): (n: nat)
    ensures |s| <= n <= 2 * |s|
    ensures n == |s| <==> AllIn(s, InBmp)
  {
    if |s| == 0 then 0
    else
      var rest := Utf16Length(s[1..]);
      assert AllIn(s, InBmp) <==> InBmp(s[0]) && AllIn(s[1..], InBmp) by {
        assert forall i :: 1 <= i < |s| ==> s[i] == s[1..][i - 1];
      }
      (if InBmp(s[0]) then 1 else 2) + rest
  }

  /** Drops the leading characters of the class (Python lstrip, JavaScript trimStart). */
  function TrimStart(s: string, isSpace: char -> bool): (r: string)
    ensures |r| <= |s| && r == s[|s| - |r|..]
    ensures AllIn(s[..|s| - |r|], isSpace)
    ensures r == [] || !isSpace(r[0])
  {
    if |s| > 0 && isSpace(s[0]) then
      var r := TrimStart(s[1..], isSpace);
      assert s[1..][..|s[1..]| - |r|] == s[1..|s| - |r|];
      r
    else s
  }

  /** Drops the trailing characters of the class (Python rstrip, JavaScript trimEnd). */
  function TrimEnd(s: string, isSpace: char -> bool): (r: string)
    ensures |r| <= |s| && r == s[..|r|]
    ensures AllIn(s[|r|..], isSpace)
    ensures r == [] || !isSpace(r[|r| - 1])
  {
    if |s| > 0 && isSpace(s[|s| - 1]) then
      var r := TrimEnd(s[..|s| - 1], isSpace);
      assert s[..|s| - 1][|r|..] == s[|r|..|s| - 1];
      r
    else s
  }

  /** `r` is `s` with the class characters before offset `a` and after `r` removed. */
  predicate CoreAt(s: string, r: string, a: int, isSpace: char -> bool) {
    && 0 <= a <= |s| - |r| && r == s[a..a + |r|]
    && AllIn(s[..a], isSpace) && AllIn(s[a + |r|..], isSpace)
  }

  /** Drops the characters of the class at both ends (Python strip, JavaScript trim). */
  function Trim(s: string, isSpace: char -> bool): (r: string)
    ensures exists a :: CoreAt(s, r, a, isSpace)
    ensures r == [] || (!isSpace(r[0]) && !isSpace(r[|r| - 1]))
  {
    var l := TrimStart(s, isSpace);
    var r := TrimEnd(l, isSpace);
    var a := |s| - |l|;
    assert l == s[a..];
    assert r == s[a..a + |r|] by {
      assert s[a..][..|r|] == s[a..a + |r|];
    }
    assert AllIn(s[a + |r|..], isSpace) by {
      assert l[|r|..] == s[a + |r|..];
    }
    assert CoreAt(s, r, a, isSpace);
    r
  }

  /** A string trims to "" exactly when all of its characters are in the class. */
  lemma {:induction false} TrimEmptyIffAllSpace(s: string, isSpace: char -> bool)
    ensures Trim(s, isSpace) == [] <==> AllIn(s, isSpace)
  {
    var l := TrimStart(s, isSpace);
    if AllIn(s, isSpace) {
    } else {
      var i :| 0 <= i < |s| && !isSpace(s[i]);
      assert i >= |s| - |l|;
      var r := TrimEnd(l, isSpace);
      assert r == [] ==> l[i - (|s| - |l|)] == s[i];
    }
  }

  function PyStrip(s: string): string { Trim(s, IsPySpace) }
  function PyLStrip(s: string): string { TrimStart(s, IsPySpace) }
  function JsTrim(s: string): string { Trim(s, IsJsSpace) }

  /** JavaScript's `s.trim() === ""`. */
  predicate JsBlank(s: string) { JsTrim(s) == "" }

  /** `value || fallback` on a string that may be `undefined`: `undefined` and `""` are both falsy. */
  function OrElse(value: Option<string>, fallback: string): string {
    if value.Some? && value.value != "" then value.value else fallback
  }

  // ----- case folding -----

  /**
   The character equivalence used for case-insensitive matching: ASCII letters and
   the Turkish capitals map to their lower-case form, and the dotted capital İ and the
   dotless ı both map to i, as in Python's ignore-case matching of a single character.
   */
  function FoldChar(c: char): char {
    if 'A' <= c <= 'Z' then (c as int + 32) as char
    else if c == 'Ç' then 'ç'
    else if c == 'Ğ' then 'ğ'
    else if c == 'Ö' then 'ö'
    else if c == 'Ş' then 'ş'
    else if c == 'Ü' then 'ü'
    else if c == 'İ' || c == 'ı' then 'i'
    else c
  }

  function Fold(s: string): (r: string)
    ensures |r| == |s|
    ensures forall i :: 0 <= i < |s| ==> r[i] == FoldChar(s[i])
  {
    seq(|s|, i requires 0 <= i < |s| => FoldChar(s[i]))
  }

  /** Folding only changes letters: no whitespace character is created or removed. */
  lemma FoldKeepsSpace(c: char)
    ensures IsPySpace(FoldChar(c)) <==> IsPySpace(c)
  {
  }

  lemma FoldSlices(s: string, i: int, j: int)
    requires 0 <= i <= j <= |s|
    ensures Fold(s[i..j]) == Fold(s)[i..j]
  {
  }

  lemma FoldAppend(a: string, b: string)
    ensures Fold(a + b) == Fold(a) + Fold(b)
  {
  }

  /** A string with non-space ends strips to itself. */
  lemma StripNoop(s: string, isSpace: char -> bool)
    requires |s| > 0 && !isSpace(s[0]) && !isSpace(s[|s| - 1])
    ensures Trim(s, isSpace) == s
  {
    assert TrimStart(s, isSpace) == s;
    assert TrimEnd(s, isSpace) == s;
  }

  /** Folding commutes with stripping, because folding never touches whitespace. */
  lemma {:induction false} FoldTrimStart(s: string)
    ensures Fold(TrimStart(s, IsPySpace)) == TrimStart(Fold(s), IsPySpace)
  {
    if |s| > 0 {
      var f := Fold(s);
      FoldKeepsSpace(s[0]);
      FoldSlices(s, 1, |s|);
      assert Fold(s[1..]) == f[1..];
      if IsPySpace(s[0]) {
        assert TrimStart(s, IsPySpace) == TrimStart(s[1..], IsPySpace);
        assert TrimStart(f, IsPySpace) == TrimStart(f[1..], IsPySpace);
        FoldTrimStart(s[1..]);
      } else {
        assert TrimStart(s, IsPySpace) == s;
        assert TrimStart(f, IsPySpace) == f;
      }
    }
  }

  lemma {:induction false} FoldTrimEnd(s: string)
    ensures Fold(TrimEnd(s, IsPySpace)) == TrimEnd(Fold(s), IsPySpace)
  {
    if |s| > 0 {
      var f := Fold(s);
      FoldKeepsSpace(s[|s| - 1]);
      FoldSlices(s, 0, |s| - 1);
      if IsPySpace(s[|s| - 1]) {
        assert TrimEnd(s, IsPySpace) == TrimEnd(s[..|s| - 1], IsPySpace);
        assert TrimEnd(f, IsPySpace) == TrimEnd(f[..|f| - 1], IsPySpace);
        FoldTrimEnd(s[..|s| - 1]);
      } else {
        assert TrimEnd(s, IsPySpace) == s;
        assert TrimEnd(f, IsPySpace) == f;
      }
    }
  }

  lemma FoldStrip(s: string)
    ensures Fold(PyStrip(s)) == PyStrip(Fold(s))
  {
    FoldTrimStart(s);
    FoldTrimEnd(TrimStart(s, IsPySpace));
  }

  // ----- substrings -----

  predicate StartsWith(s: string, p: string) {
    |p| <= |s| && s[..|p|] == p
  }

  predicate EndsWith(s: string, p: string) {
    |p| <= |s| && s[|s| - |p|..] == p
  }

  /** `w` occurs in `s` at position `i`. */
  predicate OccursAt(s: string, w: string, i: int) {
    0 <= i && i + |w| <= |s| && s[i..i + |w|] == w
  }

  predicate Contains(s: string, w: string) {
    exists i :: 0 <= i <= |s| - |w| && OccursAt(s, w, i)
  }

  // ----- lines -----

  /** Python's `s.split('\n')`: always at least one piece, none holding a newline. */
  function Split(s: string): (lines: seq<string>)
    ensures |lines| >= 1
    ensures forall k :: 0 <= k < |lines| ==> '\n' !in lines[k]
  {
    if |s| == 0 then [""]
    else if s[0] == '\n' then [""] + Split(s[1..])
    else
      var rest := Split(s[1..]);
      [[s[0]] + rest[0]] + rest[1..]
  }

  /** Python's `'\n'.join(lines)`. */
  function Join(lines: seq<string>): string {
    if |lines| == 0 then ""
    else if |lines| == 1 then lines[0]
    else lines[0] + "\n" + Join(lines[1..])
  }

  predicate NoNewline(lines: seq<string>) {
    forall k :: 0 <= k < |lines| ==> '\n' !in lines[k]
  }

  /** Joining the pieces of a split gives the text back. */
  lemma {:induction false} JoinSplit(s: string)
    ensures Join(Split(s)) == s
  {
    if |s| == 0 {
    } else if s[0] == '\n' {
      JoinSplit(s[1..]);
      assert s == "" + "\n" + s[1..];
    } else {
      var rest := Split(s[1..]);
      JoinSplit(s[1..]);
      if |rest| == 1 {
        assert s == [s[0]] + rest[0];
      } else {
        assert rest == [rest[0]] + rest[1..];
        assert Join(rest) == rest[0] + "\n" + Join(rest[1..]);
        assert s == ([s[0]] + rest[0]) + "\n" + Join(rest[1..]);
      }
    }
  }

  /** Splitting a join of newline-free pieces gives the pieces back. */
  lemma {:induction false} SplitJoin(lines: seq<string>)
    requires |lines| >= 1 && NoNewline(lines)
    ensures Split(Join(lines)) == lines
  {
    if |lines| == 1 {
      SplitNoNewline(lines[0]);
    } else {
      SplitJoin(lines[1..]);
      SplitPrefix(lines[0], Join(lines[1..]));
      assert [lines[0]] + lines[1..] == lines;
    }
  }

  lemma {:induction false} SplitNoNewline(s: string)
    requires '\n' !in s
    ensures Split(s) == [s]
  {
    if |s| > 0 {
      assert s[0] in s;
      assert forall c :: c in s[1..] ==> c in s;
      SplitNoNewline(s[1..]);
      assert [s[0]] + s[1..] == s;
    }
  }

  /** A newline-free head followed by a newline splits off as one piece. */
  lemma {:induction false} SplitPrefix(head: string, tail: string)
    requires '\n' !in head
    ensures Split(head + "\n" + tail) == [head] + Split(tail)
  {
    if |head| == 0 {
      assert head + "\n" + tail == "\n" + tail;
      assert ("\n" + tail)[1..] == tail;
    } else {
      var s := head + "\n" + tail;
      assert head[0] in head;
      assert forall c :: c in head[1..] ==> c in head;
      assert s[1..] == head[1..] + "\n" + tail;
      SplitPrefix(head[1..], tail);
      assert [s[0]] + head[1..] == head;
    }
  }

  /** Number of newline characters. */
  function NewlineCount(s: string): nat {
    if |s| == 0 then 0 else (if s[0] == '\n' then 1 else 0) + NewlineCount(s[1..])
  }

  /** Python's split yields one more piece than the text has newlines. */
  lemma {:induction false} SplitLength(s: string)
    ensures |Split(s)| == NewlineCount(s) + 1
  {
    if |s| > 0 {
      SplitLength(s[1..]);
    }
  }

  /** A suffix never has more newlines than the whole text. */
  lemma {:induction false} NewlineCountSuffix(s: string, k: nat)
    requires k <= |s|
    ensures NewlineCount(s[k..]) <= NewlineCount(s)
  {
    if k > 0 {
      assert s[1..][k - 1..] == s[k..];
      NewlineCountSuffix(s[1..], k - 1);
    }
  }

  lemma {:induction false} NewlineCountAppend(a: string, b: string)
    ensures NewlineCount(a + b) == NewlineCount(a) + NewlineCount(b)
  {
    if |a| == 0 {
      assert a + b == b;
    } else {
      assert (a + b)[1..] == a[1..] + b;
      NewlineCountAppend(a[1..], b);
    }
  }

  lemma {:induction false} NewlineCountZero(s: string)
    requires '\n' !in s
    ensures NewlineCount(s) == 0
  {
    if |s| > 0 {
      assert s[0] in s;
      assert forall c :: c in s[1..] ==> c in s;
      NewlineCountZero(s[1..]);
    }
  }

  /** Joining n >= 1 newline-free pieces puts exactly n - 1 newlines in the text. */
  lemma {:induction false} JoinNewlines(lines: seq<string>)
    requires |lines| >= 1 && NoNewline(lines)
    ensures NewlineCount(Join(lines)) == |lines| - 1
  {
    NewlineCountZero(lines[0]);
    if |lines| > 1 {
      JoinNewlines(lines[1..]);
      NewlineCountAppend(lines[0], "\n");
      NewlineCountAppend(lines[0] + "\n", Join(lines[1..]));
    }
  }

  /** Left-stripping the join of newline-free pieces leaves at most as many lines as pieces (one, for none). */
  lemma JoinStripLines(lines: seq<string>)
    requires NoNewline(lines)
    ensures |Split(PyLStrip(Join(lines)))| <= if |lines| == 0 then 1 else |lines|
  {
    var joined := Join(lines);
    var stripped := PyLStrip(joined);
    SplitLength(stripped);
    NewlineCountSuffix(joined, |joined| - |stripped|);
    if |lines| > 0 {
      JoinNewlines(lines);
    }
  }

  /** The decimal digit for `d`. */
  function Digit(d: int): (c: char)
    requires 0 <= d < 10
    ensures '0' <= c <= '9' && c as int - '0' as int == d
  {
    ('0' as int + d) as char
  }

  /** JavaScript's `String(n)` / `n.toString()` for a non-negative integer: decimal, no leading zeros. */
  function NatToString(n: nat): (s: string)
    ensures |s| >= 1 && (n >= 10 <==> |s| >= 2)
    ensures forall k :: 0 <= k < |s| ==> '0' <= s[k] <= '9'
  {
    if n < 10 then [Digit(n)] else NatToString(n / 10) + [Digit(n % 10)]
  }

  /** `String(n)` for any integer: a minus sign in front of the magnitude. */
  function IntToString(n: int): (s: string)
    ensures |s| >= 1
    ensures s[0] == '-' <==> n < 0
  {
    if n < 0 then "-" + NatToString(-n) else NatToString(n)
  }

  /** Different numbers print differently. */
  lemma {:induction false} NatToStringInjective(a: nat, b: nat)
    requires NatToString(a) == NatToString(b)
    ensures a == b
  {
    var s := NatToString(a);
    if a >= 10 {
      assert b >= 10;
      var pa, pb := NatToString(a / 10), NatToString(b / 10);
      assert s == pa + [Digit(a % 10)] == pb + [Digit(b % 10)];
      assert s[|s| - 1] == Digit(a % 10) == Digit(b % 10);
      assert pa == s[..|s| - 1] == pb;
      NatToStringInjective(a / 10, b / 10);
    } else {
      assert b < 10;
      assert s[0] == Digit(a) == Digit(b);
    }
  }

  lemma IntToStringInjective(a: int, b: int)
    requires IntToString(a) == IntToString(b)
    ensures a == b
  {
    var s := IntToString(a);
    if a < 0 {
      assert b < 0;
      assert s[1..] == NatToString(-a) == NatToString(-b);
      NatToStringInjective(-a, -b);
    } else {
      assert b >= 0;
      NatToStringInjective(a, b);
    }
  }
}
