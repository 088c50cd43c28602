/**
 * `searchPostsByTitle`: posts whose title contains the query, compared
 * without regard to case, at most ten of them. A missing or blank query
 * answers an empty list without looking at the table.
 *
 * The query is matched as sent, not trimmed. The database does not promise
 * an order; the model takes the first ten matches in table order, and
 * `SearchIsAcceptable` states what any acceptable answer must satisfy.
 */
module Search {
  import opened Text
  import opened Seqs
  import opened Store

  /** `take: 10`. */
  const Limit := 10

  /** `title: {contains: query, mode: "insensitive"}`, with `Fold` standing for the database's case rules. */
  predicate TitleMatches(p: Post, query: string) {
    Contains(Fold(p.title), Fold(query))
  }

  function MatchesQuery(query: string): Post -> bool {
    (p: Post) => TitleMatches(p, query)
  }

  /**
   * What the query promises of any answer: at most ten posts, each a
   * match, drawn from the table without repetition beyond it, and every
   * match when there are fewer than ten.
   */
  predicate Acceptable(found: seq<Post>, posts: seq<Post>, query: string) {
    && |found| <= Limit
    && IsSubseq(found, posts)
    && (forall i :: 0 <= i < |found| ==> TitleMatches(found[i], query))
    && (Count(posts, MatchesQuery(query)) <= Limit ==> |found| == Count(posts, MatchesQuery(query)))
    && (Count(posts, MatchesQuery(query)) > Limit ==> |found| == Limit)
  }

  /** The first `n` matches, `n` being the number of matches capped at the limit, are an acceptable answer. */
  lemma FirstMatchesAcceptable(posts: seq<Post>, q: string, n: nat)
    requires var all := Where(posts, MatchesQuery(q)); n == if |all| < Limit then |all| else Limit
    ensures var all := Where(posts, MatchesQuery(q)); n <= |all| && Acceptable(all[..n], posts, q)
  {
    var all := Where(posts, MatchesQuery(q));
    WhereCount(posts, MatchesQuery(q));
    PrefixSubseq(all, n);
    SubseqTrans(all[..n], all, posts);
    forall i | 0 <= i < n ensures TitleMatches(all[..n][i], q) {
      assert all[i] in all;
    }
  }

  function SearchPostsByTitle(db: Db, query: Option<string>): (resp: Response<seq<Post>>)
    ensures resp.status == 200 && resp.body.Payload?
    ensures query.None? || AllIn(query.value, IsJsSpace) ==> resp.body.value == []
    ensures query.Some? && !AllIn(query.value, IsJsSpace) ==> Acceptable(resp.body.value, db.posts, query.value)
  {
    BlankIsSpace(query);
    if query.None? || query.value == "" || JsTrim(query.value) == "" then
      Response(200, Payload([]))
    else
      var q := query.value;
      var all := Where(db.posts, MatchesQuery(q));
      var n := if |all| < Limit then |all| else Limit;
      FirstMatchesAcceptable(db.posts, q, n);
      Response(200, Payload(all[..n]))
  }

  lemma BlankIsSpace(query: Option<string>)
    ensures query.Some? ==> (JsTrim(query.value) == "" <==> AllIn(query.value, IsJsSpace))
  {
    if query.Some? {
      TrimEmptyIffAllSpace(query.value, IsJsSpace);
    }
  }

  /** When fewer than ten posts match, every match is returned. */
  lemma FewMatchesAllFound(db: Db, query: string, p: Post)
    requires !AllIn(query, IsJsSpace)
    requires Count(db.posts, MatchesQuery(query)) < Limit
    requires p in db.posts && TitleMatches(p, query)
    ensures p in SearchPostsByTitle(db, Some(query)).body.value
  {
    var all := Where(db.posts, MatchesQuery(query));
    WhereCount(db.posts, MatchesQuery(query));
    BlankIsSpace(Some(query));
    assert SearchPostsByTitle(db, Some(query)).body.value == all[..|all|];
    assert all[..|all|] == all;
    assert p in all;
  }
}
