/** The entities of the blog application: articles with a moderation status,
    comments, tags and the two kinds of like rows. Field defaults are the
    datatype constructors' default values; field bounds are validity
    predicates; the `__str__` forms and the `liked_by` query are functions. */
module Models {

  type UserId = nat
  type ArticleId = nat
  type CommentId = nat
  type TagId = nat

  datatype Option<T> = None | Some(value: T)

  /** The user that articles and comments are handed to when their author is deleted. */
  const DefaultAuthor: UserId := 1

  /** An account as the authentication layer reports it: its primary key, its
      username and the permissions (`"app.codename"`) it holds. */
  datatype User = User(id: UserId, username: string, perms: set<string>)

  /** Whoever sends a request: nobody, or a logged-in user. */
  datatype Requester = Anonymous | Authenticated(user: User)

  // ---------------------------------------------------------------------------
  // Moderation status
  // ---------------------------------------------------------------------------

  datatype Status = New | Moderated | Rejected

  /** The status choices as (stored code, display label) pairs, in declaration order. */
  const StatusChoices: seq<(string, string)> :=
    [("new", "NOt moderated"), ("moderated", "Moderated"), ("rejected", "Rejected")]

  /** Length of the status column. */
  const StatusMaxLength := 15

  function StatusCode(s: Status): string {
    match s
    case New => "new"
    case Moderated => "moderated"
    case Rejected => "rejected"
  }

  function StatusLabel(s: Status): string {
    match s
    case New => "NOt moderated"
    case Moderated => "Moderated"
    case Rejected => "Rejected"
  }

  /** Reads a stored status column; anything outside the choices is refused. */
  function ParseStatus(code: string): (r: Option<Status>)
    ensures r.Some? ==> StatusCode(r.value) == code
    ensures r.None? <==> forall s :: StatusCode(s) != code
  {
    if code == "new" then Some(New)
    else if code == "moderated" then Some(Moderated)
    else if code == "rejected" then Some(Rejected)
    else None
  }

  /** Every status is stored as one of the declared choices, fits its column,
      and reads back as itself. */
  lemma StatusIsChoice(s: Status)
    ensures (StatusCode(s), StatusLabel(s)) in StatusChoices
    ensures |StatusCode(s)| <= StatusMaxLength
    ensures ParseStatus(StatusCode(s)) == Some(s)
  {
    match s
    case New => assert StatusChoices[0] == (StatusCode(s), StatusLabel(s));
    case Moderated => assert StatusChoices[1] == (StatusCode(s), StatusLabel(s));
    case Rejected => assert StatusChoices[2] == (StatusCode(s), StatusLabel(s));
  }

  // ---------------------------------------------------------------------------
  // Entities with their field defaults
  // ---------------------------------------------------------------------------

  /** An article; creation and update timestamps are not modelled. */
  datatype Article = Article(
    title: string,
    text: string,
    author: UserId := DefaultAuthor,
    status: Status := New,
    tags: set<TagId> := {},
    likeCount: int := 0)

  /** A comment on `article`; timestamps are not modelled. */
  datatype Comment = Comment(
    article: ArticleId,
    text: string,
    author: UserId := DefaultAuthor,
    commLikeCount: int := 0)

  /** A tag; its creation timestamp is not modelled. */
  datatype Tag = Tag(name: string)

  /** "`user` likes `article`". */
  datatype ArticleLike = ArticleLike(user: UserId, article: ArticleId)

  /** "`user` likes `comment`". */
  datatype CommentLike = CommentLike(user: UserId, comment: CommentId)

  /** An article created without the defaulted fields is by the default
      author, new, untagged and has no likes; a comment likewise has no likes. */
  lemma CreationDefaults(title: string, text: string, article: ArticleId)
    ensures Article(title, text).status == New
    ensures Article(title, text).likeCount == 0
    ensures Article(title, text).author == DefaultAuthor
    ensures Article(title, text).tags == {}
    ensures Comment(article, text).commLikeCount == 0
    ensures Comment(article, text).author == DefaultAuthor
  {
  }

  // ---------------------------------------------------------------------------
  // Field bounds
  // ---------------------------------------------------------------------------

  const TitleMinLength := 10
  const TitleMaxLength := 200
  const ArticleTextMaxLength := 3000
  const CommentTextMaxLength := 400
  const TagNameMaxLength := 31

  /** Title between 10 and 200 characters, non-blank text of at most 3000. */
  predicate ValidArticle(a: Article) {
    && TitleMinLength <= |a.title| <= TitleMaxLength
    && 0 < |a.text| <= ArticleTextMaxLength
  }

  /** Non-blank text of at most 400 characters. */
  predicate ValidComment(c: Comment) {
    0 < |c.text| <= CommentTextMaxLength
  }

  /** Non-blank name of at most 31 characters. */
  predicate ValidTag(t: Tag) {
    0 < |t.name| <= TagNameMaxLength
  }

  /** An article's validity depends on its title and text only; both length
      bounds of the title and the upper bound of the text are inclusive, and
      a blank text is refused. */
  lemma ArticleBoundsEdges(a: Article)
    ensures ValidArticle(a) <==> ValidArticle(Article(a.title, a.text))
    ensures ValidArticle(Article(seq(TitleMinLength, _ => 'x'), "t"))
    ensures ValidArticle(Article(seq(TitleMaxLength, _ => 'x'), seq(ArticleTextMaxLength, _ => 't')))
    ensures !ValidArticle(Article(seq(TitleMinLength - 1, _ => 'x'), "t"))
    ensures !ValidArticle(Article(seq(TitleMaxLength + 1, _ => 'x'), "t"))
    ensures !ValidArticle(Article(seq(TitleMinLength, _ => 'x'), ""))
    ensures !ValidArticle(Article(seq(TitleMinLength, _ => 'x'), seq(ArticleTextMaxLength + 1, _ => 't')))
  {
  }

  /** A comment's validity depends on its text only: one to 400 characters. */
  lemma CommentBoundsEdges(c: Comment)
    ensures ValidComment(c) <==> ValidComment(Comment(0, c.text))
    ensures ValidComment(Comment(c.article, "t"))
    ensures ValidComment(Comment(c.article, seq(CommentTextMaxLength, _ => 't')))
    ensures !ValidComment(Comment(c.article, ""))
    ensures !ValidComment(Comment(c.article, seq(CommentTextMaxLength + 1, _ => 't')))
  {
  }

  /** A tag name has one to 31 characters. */
  lemma TagBoundsEdges()
    ensures ValidTag(Tag("t")) && ValidTag(Tag(seq(TagNameMaxLength, _ => 't')))
    ensures !ValidTag(Tag("")) && !ValidTag(Tag(seq(TagNameMaxLength + 1, _ => 't')))
  {
  }

  // ---------------------------------------------------------------------------
  // Like rows and the liked-by query
  // ---------------------------------------------------------------------------

  /** The like rows that point at article `a`. */
  function ArticleLikesFor(likes: set<ArticleLike>, a: ArticleId): (r: set<ArticleLike>)
    ensures r <= likes
    ensures forall l :: l in r <==> l in likes && l.article == a
  {
    set l | l in likes && l.article == a
  }

  /** The like rows that point at comment `c`. */
  function CommentLikesFor(likes: set<CommentLike>, c: CommentId): (r: set<CommentLike>)
    ensures r <= likes
    ensures forall l :: l in r <==> l in likes && l.comment == c
  {
    set l | l in likes && l.comment == c
  }

  /** `Article.liked_by`: the article's like rows filtered by user, counted, compared with 0. */
  function ArticleLikedBy(likes: set<ArticleLike>, a: ArticleId, user: UserId): bool {
    |set l | l in ArticleLikesFor(likes, a) && l.user == user| > 0
  }

  /** `Comment.liked_by`, the same query over comment likes. */
  function CommentLikedBy(likes: set<CommentLike>, c: CommentId, user: UserId): bool {
    |set l | l in CommentLikesFor(likes, c) && l.user == user| > 0
  }

  /** `liked_by` holds exactly when the (user, article) row exists. */
  lemma ArticleLikedByIff(likes: set<ArticleLike>, a: ArticleId, user: UserId)
    ensures ArticleLikedBy(likes, a, user) <==> ArticleLike(user, a) in likes
  {
    var mine := set l | l in ArticleLikesFor(likes, a) && l.user == user;
    if ArticleLike(user, a) in likes {
      assert ArticleLike(user, a) in mine;
    } else {
      assert forall l :: l in mine ==> l == ArticleLike(user, a);
      assert mine == {};
    }
  }

  /** `liked_by` on a comment holds exactly when the (user, comment) row exists. */
  lemma CommentLikedByIff(likes: set<CommentLike>, c: CommentId, user: UserId)
    ensures CommentLikedBy(likes, c, user) <==> CommentLike(user, c) in likes
  {
    var mine := set l | l in CommentLikesFor(likes, c) && l.user == user;
    if CommentLike(user, c) in likes {
      assert CommentLike(user, c) in mine;
    } else {
      assert forall l :: l in mine ==> l == CommentLike(user, c);
      assert mine == {};
    }
  }

  /** Adding a row raises the count for its own article by one when the row is
      new, and leaves every other count alone. */
  lemma ArticleLikesForInsert(likes: set<ArticleLike>, row: ArticleLike, a: ArticleId)
    ensures |ArticleLikesFor(likes + {row}, a)| ==
            |ArticleLikesFor(likes, a)| + (if row.article == a && row !in likes then 1 else 0)
  {
    if row.article == a && row in likes {
      assert ArticleLikesFor(likes + {row}, a) == ArticleLikesFor(likes, a);
    } else if row.article == a {
      assert ArticleLikesFor(likes + {row}, a) == ArticleLikesFor(likes, a) + {row};
    } else {
      assert ArticleLikesFor(likes + {row}, a) == ArticleLikesFor(likes, a);
    }
  }

  /** Removing a row lowers the count for its own article by one when the row
      was there, and leaves every other count alone. */
  lemma ArticleLikesForRemove(likes: set<ArticleLike>, row: ArticleLike, a: ArticleId)
    ensures |ArticleLikesFor(likes - {row}, a)| ==
            |ArticleLikesFor(likes, a)| - (if row.article == a && row in likes then 1 else 0)
  {
    if row.article == a {
      assert ArticleLikesFor(likes - {row}, a) == ArticleLikesFor(likes, a) - {row};
    } else {
      assert ArticleLikesFor(likes - {row}, a) == ArticleLikesFor(likes, a);
    }
  }

  /** Removing a comment like row lowers the count for its own comment by one
      when the row was there, and leaves every other count alone. */
  lemma CommentLikesForRemove(likes: set<CommentLike>, row: CommentLike, c: CommentId)
    ensures |CommentLikesFor(likes - {row}, c)| ==
            |CommentLikesFor(likes, c)| - (if row.comment == c && row in likes then 1 else 0)
  {
    if row.comment == c {
      assert CommentLikesFor(likes - {row}, c) == CommentLikesFor(likes, c) - {row};
    } else {
      assert CommentLikesFor(likes - {row}, c) == CommentLikesFor(likes, c);
    }
  }

  // ---------------------------------------------------------------------------
  // String forms
  // ---------------------------------------------------------------------------

  predicate IsDigit(c: char) {
    '0' <= c <= '9'
  }

  predicate AllDigits(s: string) {
    forall i :: 0 <= i < |s| ==> IsDigit(s[i])
  }

  function DigitChar(d: nat): (c: char)
    requires d < 10
    ensures IsDigit(c) && c as int - '0' as int == d
  {
    ('0' as int + d) as char
  }

  /** Decimal form of a natural number, as Python's `str` writes it. */
  function Decimal(n: nat): (r: string)
    ensures 0 < |r| && AllDigits(r)
    ensures n < 10 <==> |r| == 1
    decreases n
  {
    if n < 10 then [DigitChar(n)] else Decimal(n / 10) + [DigitChar(n % 10)]
  }

  /** The value of a string of decimal digits. */
  function DigitsValue(s: string): nat
    requires AllDigits(s)
  {
    if s == [] then 0 else DigitsValue(s[..|s| - 1]) * 10 + (s[|s| - 1] as int - '0' as int)
  }

  lemma {:induction false} DecimalRoundTrip(n: nat)
    ensures DigitsValue(Decimal(n)) == n
    decreases n
  {
    if n >= 10 {
      var r := Decimal(n);
      assert r[..|r| - 1] == Decimal(n / 10);
      DecimalRoundTrip(n / 10);
    }
  }

  /** `Article.__str__`: the primary key, a dot, a space and the title;
      an unsaved article has no key and Python prints `None`. */
  function ArticleStr(pk: Option<ArticleId>, title: string): string {
    (match pk
     case None => "None"
     case Some(n) => Decimal(n))
    + ". " + title
  }

  /** Number of leading decimal digits of `s`. */
  function LeadingDigits(s: string): (k: nat)
    ensures k <= |s| && AllDigits(s[..k])
    ensures k < |s| ==> !IsDigit(s[k])
  {
    if s == [] || !IsDigit(s[0]) then 0
    else
      var k := 1 + LeadingDigits(s[1..]);
      assert s[..k] == [s[0]] + s[1..][..k - 1];
      k
  }

  lemma {:induction false} LeadingDigitsOfPrefix(d: string, rest: string)
    requires AllDigits(d)
    requires rest == [] || !IsDigit(rest[0])
    ensures LeadingDigits(d + rest) == |d|
  {
    if d != [] {
      assert (d + rest)[1..] == d[1..] + rest;
      LeadingDigitsOfPrefix(d[1..], rest);
    }
  }

  /** Reads back the key and title of a saved article's string form. */
  function ParseArticleStr(s: string): Option<(ArticleId, string)> {
    var k := LeadingDigits(s);
    if 0 < k && k + 2 <= |s| && s[k..k + 2] == ". " then Some((DigitsValue(s[..k]), s[k + 2..]))
    else None
  }

  /** The string form of a saved article determines its key and its title. */
  lemma ArticleStrRoundTrip(pk: ArticleId, title: string)
    ensures ParseArticleStr(ArticleStr(Some(pk), title)) == Some((pk, title))
  {
    var d := Decimal(pk);
    var s := ArticleStr(Some(pk), title);
    assert s == d + (". " + title);
    LeadingDigitsOfPrefix(d, ". " + title);
    assert s[..|d|] == d;
    assert s[|d|..|d| + 2] == ". ";
    assert s[|d| + 2..] == title;
    DecimalRoundTrip(pk);
  }

  /** Number of characters `Comment.__str__` keeps. */
  const CommentStrLength := 20

  /** `Comment.__str__`: the first 20 characters of the text, or all of it. */
  function CommentStr(text: string): (r: string)
    ensures r <= text
    ensures |r| == if |text| < CommentStrLength then |text| else CommentStrLength
  {
    if |text| <= CommentStrLength then text else text[..CommentStrLength]
  }

  /** Shortening is stable: the string form of a string form is itself. */
  lemma CommentStrIdempotent(text: string)
    ensures CommentStr(CommentStr(text)) == CommentStr(text)
  {
  }

  /** `ArticleLike.__str__` and `CommentLike.__str__`: the liker's username,
      a dash and the article's title or the comment's text. */
  function LikeStr(username: string, target: string): (r: string)
    ensures |r| == |username| + 3 + |target|
    ensures r[..|username|] == username && r[|r| - |target|..] == target
    ensures r[|username|..|username| + 3] == " - "
  {
    username + " - " + target
  }

  /** Position of the first `" - "` in `s`, or `|s|` when there is none. */
  function SeparatorAt(s: string): (k: nat)
    ensures k == |s| || (k + 3 <= |s| && s[k..k + 3] == " - ")
  {
    if |s| < 3 then |s|
    else if s[..3] == " - " then 0
    else 1 + SeparatorAt(s[1..])
  }

  /** Splits a like's string form at its first `" - "` into username and target. */
  function ParseLikeStr(s: string): Option<(string, string)> {
    var k := SeparatorAt(s);
    if k + 3 <= |s| then Some((s[..k], s[k + 3..])) else None
  }

  /** The first separator after a word without spaces is the one that follows it. */
  lemma {:induction false} SeparatorAfterWord(word: string, rest: string)
    requires ' ' !in word
    requires |rest| >= 3 && rest[..3] == " - "
    ensures SeparatorAt(word + rest) == |word|
  {
    if word != [] {
      assert (word + rest)[0] == word[0];
      assert (word + rest)[1..] == word[1..] + rest;
      SeparatorAfterWord(word[1..], rest);
    }
  }

  /** A username holds no space, so the string form of a like gives back both
      the username and the title or text, whatever the latter contains. */
  lemma LikeStrRoundTrip(username: string, target: string)
    requires ' ' !in username
    ensures ParseLikeStr(LikeStr(username, target)) == Some((username, target))
  {
    var s := LikeStr(username, target);
    assert s == username + (" - " + target);
    SeparatorAfterWord(username, " - " + target);
  }
}
