/**
 * `@name` mention extraction: the global regular expression `@(\w+)` run
 * over a text, collecting the captured names in the order found.
 * Without the `u` flag, JavaScript's `\w` is `[A-Za-z0-9_]`.
 */
module Mentions {
  import opened Text

  /** The length of the run of word characters of `s` that starts at `i`. */
  function RunLength(s: string, i: nat): (n: nat)
    requires i <= |s|
    ensures i + n <= |s|
    ensures forall k :: i <= k < i + n ==> IsWordChar(s[k])
    ensures i + n == |s| || !IsWordChar(s[i + n])
    decreases |s| - i
  {
    if i < |s| && IsWordChar(s[i]) then 1 + RunLength(s, i + 1) else 0
  }

  /** `@(\w+)` can match at position `i`. */
  predicate MentionAt(s: string, i: nat) {
    i + 1 < |s| && s[i] == '@' && IsWordChar(s[i + 1])
  }

  /** The name captured by a match at `i`: the whole run after the `@`. */
  function NameAt(s: string, i: nat): (name: string)
    requires MentionAt(s, i)
    ensures |name| > 0 && AllIn(name, IsWordChar)
    ensures i + 1 + |name| <= |s| && s[i + 1..i + 1 + |name|] == name
    ensures i + 1 + |name| == |s| || !IsWordChar(s[i + 1 + |name|])
  {
    s[i + 1..i + 1 + RunLength(s, i + 1)]
  }

  /**
   * Reference reading: one name for every `@` that is followed by a word
   * character, at or after position `i`, in text order.
   */
  function MentionsFrom(s: string, i: nat): seq<string>
    decreases |s| - i
  {
    if i >= |s| then []
    else (if MentionAt(s, i) then [NameAt(s, i)] else []) + MentionsFrom(s, i + 1)
  }

  function AllMentions(s: string): seq<string> {
    MentionsFrom(s, 0)
  }

  /** No `@` lies inside a run of word characters, so a run contributes nothing. */
  lemma {:induction false} SkipRun(s: string, i: nat, j: nat)
    requires i <= j <= |s|
    requires forall k :: i <= k < j ==> IsWordChar(s[k])
    ensures MentionsFrom(s, i) == MentionsFrom(s, j)
    decreases j - i
  {
    if i < j {
      assert s[i] != '@';
      SkipRun(s, i + 1, j);
    }
  }

  /** One step of the reading: a match contributes its name and resumes past it; anything else is skipped. */
  lemma MentionStep(s: string, i: nat)
    requires i < |s|
    ensures MentionAt(s, i) ==> MentionsFrom(s, i) == [NameAt(s, i)] + MentionsFrom(s, i + 1 + |NameAt(s, i)|)
    ensures !MentionAt(s, i) ==> MentionsFrom(s, i) == MentionsFrom(s, i + 1)
  {
    if MentionAt(s, i) {
      SkipRun(s, i + 1, i + 1 + |NameAt(s, i)|);
    }
  }

  /**
   * The exec loop: from the current position, find the leftmost match,
   * record its capture, and resume just past the match.
   */
  method ExtractMentions(text: string) returns (mentions: seq<string>)
    ensures mentions == AllMentions(text)
    ensures forall k :: 0 <= k < |mentions| ==> |mentions[k]| > 0 && AllIn(mentions[k], IsWordChar)
  {
    mentions := [];
    var pos := 0;
    while pos < |text|
      invariant 0 <= pos <= |text|
      invariant mentions + MentionsFrom(text, pos) == AllMentions(text)
      invariant forall k :: 0 <= k < |mentions| ==> |mentions[k]| > 0 && AllIn(mentions[k], IsWordChar)
    {
      MentionStep(text, pos);
      if MentionAt(text, pos) {
        var n := RunLength(text, pos + 1);
        var name := text[pos + 1..pos + 1 + n];
        assert (mentions + [name]) + MentionsFrom(text, pos + 1 + n) == mentions + ([name] + MentionsFrom(text, pos + 1 + n));
        mentions := mentions + [name];
        pos := pos + 1 + n;
      } else {
        pos := pos + 1;
      }
    }
  }

  /**
   * Every name found is a non-empty, maximal run of word characters that
   * directly follows an `@` of the text; the `@` itself is not part of it.
   */
  lemma {:induction false} MentionsAreNames(s: string, i: nat, k: nat)
    requires k < |MentionsFrom(s, i)|
    ensures exists j :: i <= j && MentionAt(s, j) && MentionsFrom(s, i)[k] == NameAt(s, j)
    decreases |s| - i
  {
    if MentionAt(s, i) && k == 0 {
      assert MentionsFrom(s, i)[0] == NameAt(s, i);
    } else {
      var here := if MentionAt(s, i) then 1 else 0;
      assert MentionsFrom(s, i)[k] == MentionsFrom(s, i + 1)[k - here];
      MentionsAreNames(s, i + 1, k - here);
    }
  }

  /** A text without `@` mentions nobody. */
  lemma {:induction false} NoAtNoMentions(s: string, i: nat)
    requires forall k :: 0 <= k < |s| ==> s[k] != '@'
    ensures MentionsFrom(s, i) == []
    decreases |s| - i
  {
    if i < |s| {
      NoAtNoMentions(s, i + 1);
    }
  }

  /**
   * Mentions of two texts are those of each in turn, duplicates included,
   * when the second text does not start with a word character (so it can
   * neither extend a name at the end of the first nor complete an `@` there).
   */
  lemma {:induction false} MentionsFromAppend(a: string, b: string, i: nat)
    requires i <= |a|
    requires b == [] || !IsWordChar(b[0])
    ensures MentionsFrom(a + b, i) == MentionsFrom(a, i) + MentionsFrom(b, 0)
    decreases |a| - i
  {
    if i == |a| {
      ShiftFrom(a, b, 0);
    } else {
      var here := if MentionAt(a, i) then [NameAt(a, i)] else [];
      var rest := MentionsFrom(a, i + 1);
      assert MentionsFrom(a + b, i) == here + MentionsFrom(a + b, i + 1) by {
        NameInPrefix(a, b, i);
      }
      MentionsFromAppend(a, b, i + 1);
      assert here + (rest + MentionsFrom(b, 0)) == (here + rest) + MentionsFrom(b, 0);
    }
  }

  /** A match in the first text is the same match, with the same name, when the second follows. */
  lemma NameInPrefix(a: string, b: string, i: nat)
    requires i < |a|
    requires b == [] || !IsWordChar(b[0])
    ensures MentionAt(a + b, i) <==> MentionAt(a, i)
    ensures MentionAt(a, i) ==> NameAt(a + b, i) == NameAt(a, i)
  {
    var s := a + b;
    assert s[i] == a[i];
    if i + 1 < |a| {
      assert s[i + 1] == a[i + 1];
    } else if b != [] {
      assert s[i + 1] == b[0];
    }
    if MentionAt(a, i) {
      RunInPrefix(a, b, i + 1);
      var n := RunLength(a, i + 1);
      assert s[i + 1..i + 1 + n] == a[i + 1..i + 1 + n];
    }
  }

  /** A run inside the first text ends where it ended on its own. */
  lemma {:induction false} RunInPrefix(a: string, b: string, i: nat)
    requires i <= |a|
    requires b == [] || !IsWordChar(b[0])
    ensures RunLength(a + b, i) == RunLength(a, i)
    decreases |a| - i
  {
    if i < |a| && IsWordChar(a[i]) {
      RunInPrefix(a, b, i + 1);
    }
  }

  /** Mentions of the second text are found the same way behind any prefix. */
  lemma {:induction false} ShiftFrom(a: string, b: string, i: nat)
    requires i <= |b|
    ensures MentionsFrom(a + b, |a| + i) == MentionsFrom(b, i)
    decreases |b| - i
  {
    if i < |b| {
      NameShift(a, b, i);
      ShiftFrom(a, b, i + 1);
    }
  }

  /** A match in the second text is the same match, with the same name, behind any prefix. */
  lemma NameShift(a: string, b: string, i: nat)
    requires i < |b|
    ensures MentionAt(a + b, |a| + i) <==> MentionAt(b, i)
    ensures MentionAt(b, i) ==> NameAt(a + b, |a| + i) == NameAt(b, i)
  {
    var s := a + b;
    assert s[|a| + i] == b[i];
    if i + 1 < |b| {
      assert s[|a| + i + 1] == b[i + 1];
    }
    if MentionAt(b, i) {
      RunShift(a, b, i + 1);
      var n := RunLength(b, i + 1);
      assert s[|a| + i + 1..|a| + i + 1 + n] == b[i + 1..i + 1 + n];
    }
  }

  lemma {:induction false} RunShift(a: string, b: string, i: nat)
    requires i <= |b|
    ensures RunLength(a + b, |a| + i) == RunLength(b, i)
    decreases |b| - i
  {
    if i < |b| && IsWordChar(b[i]) {
      RunShift(a, b, i + 1);
    }
  }

  /** "@oğuz": `ğ` is not a word character, so the name stops after `o`. */
  lemma NonAsciiStopsName()
    ensures AllMentions("@oğuz") == ["o"]
  {
    var s := "@oğuz";
    assert MentionAt(s, 0);
    assert RunLength(s, 2) == 0;
    assert RunLength(s, 1) == 1;
    assert !MentionAt(s, 1) && !MentionAt(s, 2) && !MentionAt(s, 3) && !MentionAt(s, 4);
    assert MentionsFrom(s, 1) == [] by {
      NoAtNoMentions(s[1..], 0);
      ShiftFrom(s[..1], s[1..], 0);
      assert s[..1] + s[1..] == s;
    }
    assert NameAt(s, 0) == s[1..2] == "o";
  }

  /** A text that is one `@name` mentions exactly that name. */
  lemma SingleMention(name: string)
    requires |name| > 0 && AllIn(name, IsWordChar)
    ensures AllMentions("@" + name) == [name]
  {
    var s := "@" + name;
    assert MentionAt(s, 0);
    SkipRun(s, 1, |s|);
    assert s[1..|s|] == name;
  }

  /** The same name mentioned twice is reported twice, in order. */
  lemma RepeatedMention(name: string)
    requires |name| > 0 && AllIn(name, IsWordChar)
    ensures AllMentions("@" + name + " @" + name) == [name, name]
  {
    var first, second := "@" + name, " @" + name;
    assert AllMentions(first + second) == AllMentions(first) + MentionsFrom(second, 0) by {
      MentionsFromAppend(first, second, 0);
    }
    assert AllMentions(first) == [name] by {
      SingleMention(name);
    }
    assert MentionsFrom(second, 0) == [name] by {
      assert MentionsFrom(second, 0) == MentionsFrom(second, 1);
      assert second == " " + first;
      ShiftFrom(" ", first, 0);
      SingleMention(name);
    }
    assert "@" + name + " @" + name == first + second;
  }
}
