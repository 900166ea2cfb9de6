/** The tables of the application as one value, the references between them,
    and what the foreign-key deletion rules do: deleting an article cascades to
    its comments, its like rows and the like rows of those comments; deleting a
    user cascades to that user's like rows and hands the user's articles and
    comments to the default author. Saving a new article fills in the defaults. */
module Store {
  import opened Models
  import opened LikeLedger

  datatype Error = IntegrityError | MultipleObjectsReturned

  datatype Result<T> = Ok(value: T) | Err(error: Error)

  /** All rows. Tag ids are positions in `tags`; `nextArticleId` is the
      next value of the article key sequence. */
  datatype Tables = Tables(
    users: set<UserId>,
    articles: map<ArticleId, Article>,
    comments: map<CommentId, Comment>,
    tags: seq<Tag>,
    articleLikes: set<ArticleLike>,
    commentLikes: set<CommentLike>,
    nextArticleId: ArticleId)

  /** The article's author exists and each of its tags does. */
  predicate ArticleRefsOk(t: Tables, a: Article) {
    && a.author in t.users
    && forall g :: g in a.tags ==> g < |t.tags|
  }

  /** Every foreign key points at an existing row, and every article key was
      handed out by the key sequence. */
  predicate Integral(t: Tables) {
    && (forall a :: a in t.articles ==> a < t.nextArticleId && ArticleRefsOk(t, t.articles[a]))
    && (forall c :: c in t.comments ==> t.comments[c].article in t.articles && t.comments[c].author in t.users)
    && (forall l :: l in t.articleLikes ==> l.user in t.users && l.article in t.articles)
    && (forall l :: l in t.commentLikes ==> l.user in t.users && l.comment in t.comments)
  }

  /** Every article's `like_count` equals its number of like rows. */
  predicate ArticleCountersConsistent(t: Tables) {
    forall a :: a in t.articles ==> t.articles[a].likeCount == |ArticleLikesFor(t.articleLikes, a)|
  }

  /** Every comment's `comm_like_count` equals its number of like rows. */
  predicate CommentCountersConsistent(t: Tables) {
    forall c :: c in t.comments ==> t.comments[c].commLikeCount == |CommentLikesFor(t.commentLikes, c)|
  }

  /** Every article and comment respects its field bounds. */
  predicate FieldsValid(t: Tables) {
    && (forall a :: a in t.articles ==> ValidArticle(t.articles[a]))
    && (forall c :: c in t.comments ==> ValidComment(t.comments[c]))
  }

  /** The article like ledger held in the tables. */
  function ArticleLedger(t: Tables): LedgerState {
    LedgerState(t.articles.Keys, t.articleLikes, map a | a in t.articles :: t.articles[a].likeCount)
  }

  /** On tables with intact references, the ledger's invariant is exactly the
      article counters' consistency. */
  lemma ArticleLedgerConsistent(t: Tables)
    requires Integral(t)
    ensures WellFormed(ArticleLedger(t))
    ensures Consistent(ArticleLedger(t)) <==> ArticleCountersConsistent(t)
  {
  }

  // ---------------------------------------------------------------------------
  // Saving a new article
  // ---------------------------------------------------------------------------

  /** Saves an article built from the given fields and the model defaults
      under the next key, and answers with that key. */
  function SaveNewArticle(t: Tables, title: string, text: string, author: UserId, tags: set<TagId>): (Tables, ArticleId) {
    var pk := t.nextArticleId;
    (t.(articles := t.articles[pk := Article(title, text, author, tags := tags)],
        nextArticleId := pk + 1),
     pk)
  }

  /** A saved new article is new and has no likes; because no row can point at
      a fresh key, its zero counter keeps every counter consistent, and the
      references stay intact. */
  lemma SaveNewArticlePreserves(t: Tables, title: string, text: string, author: UserId, tags: set<TagId>)
    requires Integral(t)
    requires author in t.users
    requires forall g :: g in tags ==> g < |t.tags|
    ensures var (u, pk) := SaveNewArticle(t, title, text, author, tags);
      && pk !in t.articles
      && u.articles.Keys == t.articles.Keys + {pk}
      && u.articles[pk].status == New && u.articles[pk].likeCount == 0
      && Integral(u)
      && (ArticleCountersConsistent(t) ==> ArticleCountersConsistent(u))
      && (CommentCountersConsistent(t) ==> CommentCountersConsistent(u))
      && (FieldsValid(t) && ValidArticle(u.articles[pk]) ==> FieldsValid(u))
  {
    var (u, pk) := SaveNewArticle(t, title, text, author, tags);
    assert ArticleLikesFor(t.articleLikes, pk) == {};
  }

  // ---------------------------------------------------------------------------
  // Deleting an article
  // ---------------------------------------------------------------------------

  /** The comments on article `pk`. */
  function CommentsOf(t: Tables, pk: ArticleId): (r: set<CommentId>)
    ensures forall c :: c in r <==> c in t.comments && t.comments[c].article == pk
  {
    set c | c in t.comments && t.comments[c].article == pk
  }

  /** Deletes article `pk`, cascading to its comments, its like rows and the
      like rows of its comments; its tag links go with it. */
  function DeleteArticle(t: Tables, pk: ArticleId): Tables
    requires pk in t.articles
  {
    var gone := CommentsOf(t, pk);
    t.(articles := t.articles - {pk},
       comments := t.comments - gone,
       articleLikes := (set l | l in t.articleLikes && l.article != pk),
       commentLikes := (set l | l in t.commentLikes && l.comment !in gone))
  }

  /** After deleting an article nothing refers to it: its comments and all like
      rows on it or on its comments are gone, everything else is kept. */
  lemma DeleteArticleCascades(t: Tables, pk: ArticleId)
    requires Integral(t)
    requires pk in t.articles
    ensures var u := DeleteArticle(t, pk);
      && u.articles.Keys == t.articles.Keys - {pk}
      && (forall a :: a in u.articles ==> u.articles[a] == t.articles[a])
      && (forall c :: c in u.comments <==> c in t.comments && t.comments[c].article != pk)
      && (forall c :: c in u.comments ==> u.comments[c] == t.comments[c])
      && (forall l :: l in u.articleLikes <==> l in t.articleLikes && l.article != pk)
      && (forall l :: l in u.commentLikes <==> l in t.commentLikes && l.comment in u.comments)
      && u.users == t.users && u.tags == t.tags && u.nextArticleId == t.nextArticleId
  {
  }

  /** Deleting an article keeps references intact and every remaining counter
      consistent. */
  lemma DeleteArticlePreserves(t: Tables, pk: ArticleId)
    requires Integral(t)
    requires pk in t.articles
    ensures Integral(DeleteArticle(t, pk))
    ensures ArticleCountersConsistent(t) ==> ArticleCountersConsistent(DeleteArticle(t, pk))
    ensures CommentCountersConsistent(t) ==> CommentCountersConsistent(DeleteArticle(t, pk))
    ensures FieldsValid(t) ==> FieldsValid(DeleteArticle(t, pk))
  {
    var u := DeleteArticle(t, pk);
    forall a | a in u.articles
      ensures ArticleLikesFor(u.articleLikes, a) == ArticleLikesFor(t.articleLikes, a)
    {
    }
    forall c | c in u.comments
      ensures CommentLikesFor(u.commentLikes, c) == CommentLikesFor(t.commentLikes, c)
    {
    }
  }

  // ---------------------------------------------------------------------------
  // Deleting a user
  // ---------------------------------------------------------------------------

  /** Whether `u` is the author of some article or comment. */
  predicate AuthorsSomething(t: Tables, u: UserId) {
    || (exists a :: a in t.articles && t.articles[a].author == u)
    || (exists c :: c in t.comments && t.comments[c].author == u)
  }

  function ReassignArticle(a: Article, u: UserId): Article {
    if a.author == u then a.(author := DefaultAuthor) else a
  }

  function ReassignComment(c: Comment, u: UserId): Comment {
    if c.author == u then c.(author := DefaultAuthor) else c
  }

  /** Deletes user `u` as the deletion rules say: the user's like rows are
      deleted, and the user's articles and comments are set to the default
      author, which must then still exist. The counters are not touched. */
  function DeleteUser(t: Tables, u: UserId): Result<Tables>
    requires u in t.users
  {
    if AuthorsSomething(t, u) && DefaultAuthor !in t.users - {u} then Err(IntegrityError)
    else
      Ok(t.(users := t.users - {u},
            articles := (map a | a in t.articles :: ReassignArticle(t.articles[a], u)),
            comments := (map c | c in t.comments :: ReassignComment(t.comments[c], u)),
            articleLikes := (set l | l in t.articleLikes && l.user != u),
            commentLikes := (set l | l in t.commentLikes && l.user != u)))
  }

  /** Deleting a user fails exactly when the default author would be missing
      for content that needs it. Otherwise none of the user's likes remain,
      nothing is authored by the user any more, the user's articles and
      comments now belong to the default author, and every other row is kept. */
  lemma DeleteUserRules(t: Tables, u: UserId)
    requires u in t.users
    ensures DeleteUser(t, u).Err? <==> AuthorsSomething(t, u) && DefaultAuthor !in t.users - {u}
    ensures DeleteUser(t, u).Ok? ==> var v := DeleteUser(t, u).value;
      && v.users == t.users - {u}
      && v.tags == t.tags && v.nextArticleId == t.nextArticleId
      && v.articles.Keys == t.articles.Keys && v.comments.Keys == t.comments.Keys
      && !AuthorsSomething(v, u)
      && (forall a :: a in t.articles ==>
            && v.articles[a].author == (if t.articles[a].author == u then DefaultAuthor else t.articles[a].author)
            && v.articles[a].(author := t.articles[a].author) == t.articles[a])
      && (forall c :: c in t.comments ==>
            && v.comments[c].author == (if t.comments[c].author == u then DefaultAuthor else t.comments[c].author)
            && v.comments[c].(author := t.comments[c].author) == t.comments[c])
      && (forall l :: l in v.articleLikes <==> l in t.articleLikes && l.user != u)
      && (forall l :: l in v.commentLikes <==> l in t.commentLikes && l.user != u)
  {
  }

  /** A successful user deletion keeps every reference intact. */
  lemma DeleteUserPreservesIntegrity(t: Tables, u: UserId)
    requires Integral(t)
    requires u in t.users
    requires DeleteUser(t, u).Ok?
    ensures Integral(DeleteUser(t, u).value)
    ensures FieldsValid(t) ==> FieldsValid(DeleteUser(t, u).value)
  {
    var v := DeleteUser(t, u).value;
    forall a | a in v.articles ensures a < v.nextArticleId && ArticleRefsOk(v, v.articles[a]) {
      if t.articles[a].author == u {
        assert AuthorsSomething(t, u);
      }
    }
    forall c | c in v.comments ensures v.comments[c].article in v.articles && v.comments[c].author in v.users {
      if t.comments[c].author == u {
        assert AuthorsSomething(t, u);
      }
    }
  }

  /** A ledger where user 2 liked article 5 and the counters agree with the rows. */
  function StaleCounterExample(): Tables {
    Tables(
      {1, 2},
      map[5 := Article("A long title", "Some text", 1, Moderated, {}, 1)],
      map[],
      [],
      {ArticleLike(2, 5)},
      {},
      6)
  }

  /** Deleting a user with a like succeeds but leaves the liked article's
      counter one too high: the cascade removes the row and not the like. */
  lemma DeleteUserLeavesStaleCounter()
    ensures Integral(StaleCounterExample()) && ArticleCountersConsistent(StaleCounterExample())
    ensures DeleteUser(StaleCounterExample(), 2).Ok?
    ensures !ArticleCountersConsistent(DeleteUser(StaleCounterExample(), 2).value)
  {
    var t := StaleCounterExample();
    assert ArticleLikesFor(t.articleLikes, 5) == {ArticleLike(2, 5)};
    var v := DeleteUser(t, 2).value;
    assert v.articleLikes == {} by {
      assert forall l :: l in v.articleLikes ==> l in t.articleLikes && l.user != 2;
    }
    assert ArticleLikesFor(v.articleLikes, 5) == {};
    assert v.articles[5].likeCount == 1;
  }

  function Unliked(a: Article, liked: bool): Article {
    if liked then a.(likeCount := a.likeCount - 1) else a
  }

  function UnlikedComment(c: Comment, liked: bool): Comment {
    if liked then c.(commLikeCount := c.commLikeCount - 1) else c
  }

  /** User deletion that also takes the user's likes off the counters of the
      articles and comments they liked. */
  function DeleteUserRecount(t: Tables, u: UserId): Result<Tables>
    requires u in t.users
  {
    match DeleteUser(t, u)
    case Err(e) => Err(e)
    case Ok(v) =>
      Ok(v.(articles := (map a | a in v.articles :: Unliked(v.articles[a], ArticleLike(u, a) in t.articleLikes)),
            comments := (map c | c in v.comments :: UnlikedComment(v.comments[c], CommentLike(u, c) in t.commentLikes))))
  }

  /** Without the user's rows, an article has the rows it had less the user's own. */
  lemma ArticleLikesWithoutUser(likes: set<ArticleLike>, u: UserId, a: ArticleId)
    ensures |ArticleLikesFor((set l | l in likes && l.user != u), a)| ==
            |ArticleLikesFor(likes, a)| - (if ArticleLike(u, a) in likes then 1 else 0)
  {
    assert ArticleLikesFor((set l | l in likes && l.user != u), a) == ArticleLikesFor(likes - {ArticleLike(u, a)}, a);
    ArticleLikesForRemove(likes, ArticleLike(u, a), a);
  }

  /** Without the user's rows, a comment has the rows it had less the user's own. */
  lemma CommentLikesWithoutUser(likes: set<CommentLike>, u: UserId, c: CommentId)
    ensures |CommentLikesFor((set l | l in likes && l.user != u), c)| ==
            |CommentLikesFor(likes, c)| - (if CommentLike(u, c) in likes then 1 else 0)
  {
    assert CommentLikesFor((set l | l in likes && l.user != u), c) == CommentLikesFor(likes - {CommentLike(u, c)}, c);
    CommentLikesForRemove(likes, CommentLike(u, c), c);
  }

  /** The recounting deletion succeeds when the rules do, and differs from
      them only in the counters. */
  lemma DeleteUserRecountAgrees(t: Tables, u: UserId)
    requires u in t.users
    ensures DeleteUserRecount(t, u).Ok? <==> DeleteUser(t, u).Ok?
    ensures DeleteUserRecount(t, u).Ok? ==>
      var v := DeleteUser(t, u).value;
      var w := DeleteUserRecount(t, u).value;
      && w.(articles := v.articles, comments := v.comments) == v
      && w.articles.Keys == v.articles.Keys && w.comments.Keys == v.comments.Keys
      && (forall a :: a in w.articles ==> w.articles[a].(likeCount := v.articles[a].likeCount) == v.articles[a])
      && (forall c :: c in w.comments ==> w.comments[c].(commLikeCount := v.comments[c].commLikeCount) == v.comments[c])
  {
  }

  /** The recounting deletion keeps references intact and fields valid. */
  lemma DeleteUserRecountIntegrity(t: Tables, u: UserId)
    requires Integral(t)
    requires u in t.users
    requires DeleteUserRecount(t, u).Ok?
    ensures Integral(DeleteUserRecount(t, u).value)
    ensures FieldsValid(t) ==> FieldsValid(DeleteUserRecount(t, u).value)
  {
    DeleteUserRecountAgrees(t, u);
    DeleteUserPreservesIntegrity(t, u);
    var v := DeleteUser(t, u).value;
    var w := DeleteUserRecount(t, u).value;
    forall a | a in w.articles ensures a < w.nextArticleId && ArticleRefsOk(w, w.articles[a]) {
      assert ArticleRefsOk(v, v.articles[a]);
    }
    if FieldsValid(t) {
      forall a | a in w.articles ensures ValidArticle(w.articles[a]) {
        assert ValidArticle(v.articles[a]);
      }
      forall c | c in w.comments ensures ValidComment(w.comments[c]) {
        assert ValidComment(v.comments[c]);
      }
    }
  }

  /** The recounting deletion keeps every article counter consistent. */
  lemma DeleteUserRecountArticleCounters(t: Tables, u: UserId)
    requires u in t.users
    requires ArticleCountersConsistent(t)
    requires DeleteUserRecount(t, u).Ok?
    ensures ArticleCountersConsistent(DeleteUserRecount(t, u).value)
  {
    var w := DeleteUserRecount(t, u).value;
    forall a | a in w.articles
      ensures w.articles[a].likeCount == |ArticleLikesFor(w.articleLikes, a)|
    {
      ArticleLikesWithoutUser(t.articleLikes, u, a);
    }
  }

  /** The recounting deletion keeps every comment counter consistent. */
  lemma DeleteUserRecountCommentCounters(t: Tables, u: UserId)
    requires u in t.users
    requires CommentCountersConsistent(t)
    requires DeleteUserRecount(t, u).Ok?
    ensures CommentCountersConsistent(DeleteUserRecount(t, u).value)
  {
    var w := DeleteUserRecount(t, u).value;
    forall c | c in w.comments
      ensures w.comments[c].commLikeCount == |CommentLikesFor(w.commentLikes, c)|
    {
      CommentLikesWithoutUser(t.commentLikes, u, c);
    }
  }

  /** The recounting deletion keeps every article and comment counter equal
      to its number of like rows. */
  lemma DeleteUserRecountKeepsCounters(t: Tables, u: UserId)
    requires u in t.users
    requires ArticleCountersConsistent(t) && CommentCountersConsistent(t)
    requires DeleteUserRecount(t, u).Ok?
    ensures ArticleCountersConsistent(DeleteUserRecount(t, u).value)
    ensures CommentCountersConsistent(DeleteUserRecount(t, u).value)
  {
    DeleteUserRecountArticleCounters(t, u);
    DeleteUserRecountCommentCounters(t, u);
  }
}
