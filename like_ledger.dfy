/** The like ledger behind the article like and unlike views: a set of
    (user, article) like rows next to a denormalised `like_count` per article.
    `LikeStep` and `UnlikeStep` say what one request does to the ledger;
    `ArticleLikeLedger` performs the same request in place. The source keeps
    rows and counters in lockstep without stating why; `Consistent` is the
    invariant that makes it right, and the lemmas show both steps keep it. */
module LikeLedger {
  import opened Models

  /** What a like or unlike request answers: the new counter (HTTP 200),
      forbidden (HTTP 403) or not found (HTTP 404). */
  datatype Response = Count(value: int) | Forbidden | NotFound

  /** The existing article ids, the like rows and each article's counter. */
  datatype LedgerState = LedgerState(
    articles: set<ArticleId>,
    rows: set<ArticleLike>,
    likeCount: map<ArticleId, int>)

  /** Every article has a counter, and every row points at an article. */
  predicate WellFormed(s: LedgerState) {
    && s.likeCount.Keys == s.articles
    && forall r :: r in s.rows ==> r.article in s.articles
  }

  /** Number of rows for article `a`. */
  function RowCount(s: LedgerState, a: ArticleId): nat {
    |ArticleLikesFor(s.rows, a)|
  }

  /** Each article's counter equals the number of its like rows. */
  predicate Consistent(s: LedgerState) {
    && WellFormed(s)
    && forall a :: a in s.articles ==> s.likeCount[a] == RowCount(s, a)
  }

  /** `ArticleLikeView.get`: look the article up, get or create the row, and
      on creation add one to the counter and answer with it. */
  function LikeStep(s: LedgerState, user: UserId, pk: ArticleId): (LedgerState, Response)
    requires WellFormed(s)
  {
    if pk !in s.articles then (s, NotFound)
    else if ArticleLike(user, pk) in s.rows then (s, Forbidden)
    else
      var n := s.likeCount[pk] + 1;
      (s.(rows := s.rows + {ArticleLike(user, pk)}, likeCount := s.likeCount[pk := n]), Count(n))
  }

  /** `ArticleUnLikeView.get`: look the article and the row up, delete the
      row, take one from the counter and answer with it. */
  function UnlikeStep(s: LedgerState, user: UserId, pk: ArticleId): (LedgerState, Response)
    requires WellFormed(s)
  {
    if pk !in s.articles then (s, NotFound)
    else if ArticleLike(user, pk) !in s.rows then (s, NotFound)
    else
      var n := s.likeCount[pk] - 1;
      (s.(rows := s.rows - {ArticleLike(user, pk)}, likeCount := s.likeCount[pk := n]), Count(n))
  }

  // ---------------------------------------------------------------------------
  // What one like request does
  // ---------------------------------------------------------------------------

  /** Like on a missing article is NotFound; on an existing row it is Forbidden;
      either way nothing changes. Otherwise exactly the (user, article) row
      is added, that counter rises by one and the answer is the new counter. */
  lemma LikeOutcome(s: LedgerState, user: UserId, pk: ArticleId)
    requires WellFormed(s)
    ensures var (t, r) := LikeStep(s, user, pk);
      && WellFormed(t)
      && t.articles == s.articles
      && (pk !in s.articles ==> r == NotFound && t == s)
      && (pk in s.articles && ArticleLike(user, pk) in s.rows ==> r == Forbidden && t == s)
      && (pk in s.articles && ArticleLike(user, pk) !in s.rows ==>
            && t.rows == s.rows + {ArticleLike(user, pk)}
            && t.likeCount[pk] == s.likeCount[pk] + 1
            && r == Count(t.likeCount[pk]))
  {
  }

  /** Like leaves the rows of other users or other articles and the counters
      of other articles as they were. */
  lemma LikeFrame(s: LedgerState, user: UserId, pk: ArticleId)
    requires WellFormed(s)
    ensures var t := LikeStep(s, user, pk).0;
      && (forall row :: row != ArticleLike(user, pk) ==> (row in t.rows <==> row in s.rows))
      && (forall a :: a in s.articles && a != pk ==> t.likeCount[a] == s.likeCount[a])
  {
  }

  /** Like keeps every counter equal to its number of rows. */
  lemma LikePreservesConsistency(s: LedgerState, user: UserId, pk: ArticleId)
    requires Consistent(s)
    ensures Consistent(LikeStep(s, user, pk).0)
  {
    var t := LikeStep(s, user, pk).0;
    if pk in s.articles && ArticleLike(user, pk) !in s.rows {
      forall a | a in t.articles ensures t.likeCount[a] == RowCount(t, a) {
        ArticleLikesForInsert(s.rows, ArticleLike(user, pk), a);
      }
    }
  }

  /** A like that succeeds leaves the user recorded as liking the article,
      and on a consistent ledger it answers with the article's number of rows. */
  lemma LikeRecordsLiker(s: LedgerState, user: UserId, pk: ArticleId)
    requires WellFormed(s)
    requires LikeStep(s, user, pk).1.Count?
    ensures ArticleLikedBy(LikeStep(s, user, pk).0.rows, pk, user)
    ensures Consistent(s) ==> LikeStep(s, user, pk).1.value == RowCount(LikeStep(s, user, pk).0, pk)
  {
    ArticleLikedByIff(LikeStep(s, user, pk).0.rows, pk, user);
    if Consistent(s) {
      LikePreservesConsistency(s, user, pk);
    }
  }

  /** Liking twice in a row: the second request is Forbidden and changes nothing,
      so the counter is raised once. */
  lemma LikeTwiceForbidden(s: LedgerState, user: UserId, pk: ArticleId)
    requires WellFormed(s)
    requires pk in s.articles
    ensures var t := LikeStep(s, user, pk).0;
      && LikeStep(t, user, pk) == (t, Forbidden)
      && t.likeCount[pk] <= s.likeCount[pk] + 1
  {
  }

  // ---------------------------------------------------------------------------
  // What one unlike request does
  // ---------------------------------------------------------------------------

  /** Unlike on a missing article or a missing row is NotFound and changes
      nothing. Otherwise exactly that row is removed, that counter drops by one
      and the answer is the new counter. */
  lemma UnlikeOutcome(s: LedgerState, user: UserId, pk: ArticleId)
    requires WellFormed(s)
    ensures var (t, r) := UnlikeStep(s, user, pk);
      && WellFormed(t)
      && t.articles == s.articles
      && (pk !in s.articles || ArticleLike(user, pk) !in s.rows ==> r == NotFound && t == s)
      && (pk in s.articles && ArticleLike(user, pk) in s.rows ==>
            && t.rows == s.rows - {ArticleLike(user, pk)}
            && t.likeCount[pk] == s.likeCount[pk] - 1
            && r == Count(t.likeCount[pk]))
  {
  }

  /** Unlike leaves the rows of other users or other articles and the counters
      of other articles as they were. */
  lemma UnlikeFrame(s: LedgerState, user: UserId, pk: ArticleId)
    requires WellFormed(s)
    ensures var t := UnlikeStep(s, user, pk).0;
      && (forall row :: row != ArticleLike(user, pk) ==> (row in t.rows <==> row in s.rows))
      && (forall a :: a in s.articles && a != pk ==> t.likeCount[a] == s.likeCount[a])
  {
  }

  /** Unlike keeps every counter equal to its number of rows. */
  lemma UnlikePreservesConsistency(s: LedgerState, user: UserId, pk: ArticleId)
    requires Consistent(s)
    ensures Consistent(UnlikeStep(s, user, pk).0)
  {
    var t := UnlikeStep(s, user, pk).0;
    if pk in s.articles && ArticleLike(user, pk) in s.rows {
      forall a | a in t.articles ensures t.likeCount[a] == RowCount(t, a) {
        ArticleLikesForRemove(s.rows, ArticleLike(user, pk), a);
      }
    }
  }

  /** On a consistent ledger no counter is negative, so unlike, which does not
      clamp, never answers with a negative count. */
  lemma UnlikeNeverNegative(s: LedgerState, user: UserId, pk: ArticleId)
    requires Consistent(s)
    ensures forall a :: a in s.articles ==> s.likeCount[a] >= 0
    ensures UnlikeStep(s, user, pk).1.Count? ==> UnlikeStep(s, user, pk).1.value >= 0
  {
    UnlikePreservesConsistency(s, user, pk);
  }

  /** An unlike after a successful like restores the ledger exactly, and
      answers with the counter the article had before. */
  lemma LikeThenUnlikeRestores(s: LedgerState, user: UserId, pk: ArticleId)
    requires WellFormed(s)
    requires LikeStep(s, user, pk).1.Count?
    ensures UnlikeStep(LikeStep(s, user, pk).0, user, pk) == (s, Count(s.likeCount[pk]))
  {
    var row := ArticleLike(user, pk);
    var t := LikeStep(s, user, pk).0;
    assert (s.rows + {row}) - {row} == s.rows;
    assert t.likeCount[pk := s.likeCount[pk]] == s.likeCount;
  }

  // ---------------------------------------------------------------------------
  // The ledger kept in place
  // ---------------------------------------------------------------------------

  /** The ledger as the views change it: rows are created and deleted and the
      counter of the same article is updated in the same request. */
  class ArticleLikeLedger {
    var articles: set<ArticleId>
    var rows: set<ArticleLike>
    var likeCount: map<ArticleId, int>

    function State(): LedgerState
      reads this
    {
      LedgerState(articles, rows, likeCount)
    }

    predicate Valid()
      reads this
    {
      WellFormed(State())
    }

    /** A ledger over the given articles, all with the default count 0 and no rows. */
    constructor (existing: set<ArticleId>)
      ensures Valid() && Consistent(State())
      ensures articles == existing && rows == {}
      ensures forall a :: a in existing ==> likeCount[a] == 0
    {
      articles := existing;
      rows := {};
      likeCount := map a | a in existing :: 0;
      new;
      forall a | a in existing ensures likeCount[a] == RowCount(State(), a) {
        assert ArticleLikesFor(rows, a) == {};
      }
    }

    /** `ArticleLikeView.get` for a logged-in requester. */
    method Like(requester: Requester, pk: ArticleId) returns (response: Response)
      requires Valid()
      requires requester.Authenticated?
      modifies this
      ensures Valid()
      ensures (State(), response) == LikeStep(old(State()), requester.user.id, pk)
      ensures old(Consistent(State())) ==> Consistent(State())
    {
      ghost var before := State();
      if pk !in articles {
        return NotFound;
      }
      var row := ArticleLike(requester.user.id, pk);
      var created := row !in rows;
      if created {
        rows := rows + {row};
        likeCount := likeCount[pk := likeCount[pk] + 1];
        response := Count(likeCount[pk]);
      } else {
        response := Forbidden;
      }
      if Consistent(before) {
        LikePreservesConsistency(before, requester.user.id, pk);
      }
    }

    /** `ArticleUnLikeView.get` for a logged-in requester. */
    method Unlike(requester: Requester, pk: ArticleId) returns (response: Response)
      requires Valid()
      requires requester.Authenticated?
      modifies this
      ensures Valid()
      ensures (State(), response) == UnlikeStep(old(State()), requester.user.id, pk)
      ensures old(Consistent(State())) ==> Consistent(State())
    {
      ghost var before := State();
      if pk !in articles {
        return NotFound;
      }
      var row := ArticleLike(requester.user.id, pk);
      if row !in rows {
        return NotFound;
      }
      rows := rows - {row};
      likeCount := likeCount[pk := likeCount[pk] - 1];
      response := Count(likeCount[pk]);
      if Consistent(before) {
        UnlikePreservesConsistency(before, requester.user.id, pk);
      }
    }

    /** `Article.liked_by(user)` for article `pk`. */
    method LikedBy(user: UserId, pk: ArticleId) returns (liked: bool)
      ensures liked <==> ArticleLike(user, pk) in rows
    {
      liked := ArticleLikedBy(rows, pk, user);
      ArticleLikedByIff(rows, pk, user);
    }
  }
}
