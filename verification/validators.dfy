/**
 * Request-body validators that run in front of the reaction and comment
 * handlers. Each one either hands the request on (`next()`) or answers
 * 400 itself; none of them alters the body.
 */
module Validators {
  import opened Text

  /** A field of a parsed JSON body, as JavaScript sees it. */
  datatype Field =
    | Absent            // missing, `undefined` or `null`
    | JStr(s: string)   // a string value
    | JOther            // a number, boolean, object or array

  /** A middleware's decision: call `next()`, or answer with a status and a JSON body `{key: text}`. */
  datatype Verdict =
    | Next
    | Halt(status: int, key: string, text: string)

  const PostReactions: seq<string> := ["like", "love", "haha", "sad", "angry"]
  const CommentReactions: seq<string> := ["like", "dislike", "laugh"]

  /** JavaScript truthiness of a body field. */
  predicate Truthy(f: Field) {
    match f
    case Absent => false
    case JStr(s) => s != ""
    case JOther => true
  }

  /**
   * The shared shape of both reaction validators: a missing, empty or
   * non-string value gets `missing`; a string outside `allowed` gets a
   * message quoting it; anything else goes on.
   */
  function ValidateReaction(f: Field, allowed: seq<string>, missing: string): (v: Verdict)
    requires "" !in allowed
    ensures v.Next? <==> f.JStr? && f.s in allowed
    ensures v.Halt? ==> v.status == 400 && v.key == "message"
    ensures v.Halt? && (!Truthy(f) || !f.JStr?) ==> v.text == missing
    ensures v.Halt? && Truthy(f) && f.JStr? ==> v.text == "Tepki '" + f.s + "' geçerli değil."
  {
    if !Truthy(f) || !f.JStr? then Halt(400, "message", missing)
    else if f.s !in allowed then Halt(400, "message", "Tepki '" + f.s + "' geçerli değil.")
    else Next
  }

  function ValidatePostReaction(f: Field): (v: Verdict)
    ensures v.Next? <==> f.JStr? && f.s in PostReactions
    ensures v.Halt? ==> v.status == 400
  {
    ValidateReaction(f, PostReactions, "Gönderi tepkisi geçerli değil.")
  }

  function ValidateCommentReaction(f: Field): (v: Verdict)
    ensures v.Next? <==> f.JStr? && f.s in CommentReactions
    ensures v.Halt? ==> v.status == 400
  {
    ValidateReaction(f, CommentReactions, "Yorum tepkisi geçerli değil.")
  }

  /**
   * `text` must be a string with something other than whitespace in it.
   * The check trims a copy; the body's `text` is left as it was.
   */
  function ValidateComment(f: Field): (v: Verdict)
    ensures v.Next? <==> f.JStr? && !AllIn(f.s, IsJsSpace)
    ensures v.Halt? ==> v == Halt(400, "error", "Yorum boş olamaz")
  {
    BlankMeansSpace(f);
    if !Truthy(f) || !f.JStr? || JsBlank(f.s) then Halt(400, "error", "Yorum boş olamaz")
    else Next
  }

  lemma BlankMeansSpace(f: Field)
    ensures f.JStr? ==> (JsBlank(f.s) <==> AllIn(f.s, IsJsSpace))
  {
    if f.JStr? {
      TrimEmptyIffAllSpace(f.s, IsJsSpace);
    }
  }

  /** A missing, empty or non-string reaction gets the validator's own first message. */
  lemma MissingPostReaction(f: Field)
    requires f == Absent || f == JStr("") || f == JOther
    ensures ValidatePostReaction(f) == Halt(400, "message", "Gönderi tepkisi geçerli değil.")
  {
  }

  /** "love" is a post reaction but not a comment reaction. */
  lemma LoveOnlyForPosts()
    ensures ValidatePostReaction(JStr("love")).Next?
    ensures ValidateCommentReaction(JStr("love")) == Halt(400, "message", "Tepki 'love' geçerli değil.")
  {
    assert PostReactions[1] == "love";
    var love := "love";
    assert love[1] == 'o' && love[0] == 'l';
    assert CommentReactions[0][1] == 'i' && CommentReactions[1][0] == 'd' && CommentReactions[2][1] == 'a';
    assert love !in CommentReactions;
    assert "Tepki '" + love + "' geçerli değil." == "Tepki 'love' geçerli değil.";
  }

  /** Every comment reaction other than "dislike" and "laugh" is also a post reaction. */
  lemma SharedReactions(s: string)
    requires ValidateCommentReaction(JStr(s)).Next? && s != "dislike" && s != "laugh"
    ensures ValidatePostReaction(JStr(s)).Next?
  {
  }

  /** Whitespace never makes a comment acceptable. */
  lemma PaddingIrrelevant(s: string, pad: string)
    requires AllIn(pad, IsJsSpace)
    ensures ValidateComment(JStr(pad + s + pad)).Next? <==> ValidateComment(JStr(s)).Next?
  {
    var t := pad + s + pad;
    if AllIn(s, IsJsSpace) {
      assert AllIn(t, IsJsSpace) by {
        forall i | 0 <= i < |t| ensures IsJsSpace(t[i]) {
          if i < |pad| { assert t[i] == pad[i]; }
          else if i < |pad| + |s| { assert t[i] == s[i - |pad|]; }
          else { assert t[i] == pad[i - |pad| - |s|]; }
        }
      }
    } else {
      var k :| 0 <= k < |s| && !IsJsSpace(s[k]);
      assert t[|pad| + k] == s[k];
    }
  }
}
