# Blog articles: like ledger, moderation and permission gates

This project models the core of a small blog application. Users publish
articles. Articles have comments and tags, a moderation status and likes.
The model has four modules, one file each:

- `Models` (`models.dfy`) holds the entities. These are Article, Comment,
  Tag, ArticleLike, CommentLike, and the user with the requester. Each
  field default is a default value of the datatype constructor: author 1,
  status `new`, no tags, 0 likes. The module also holds the three status
  choices, the field bounds as validity predicates, the `__str__` forms
  and the `liked_by` query.
- `LikeLedger` (`like_ledger.dfy`) models the like and unlike views. Its
  state is a set of (user, article) like rows, a `like_count` per article
  and the set of existing articles. `LikeStep` and `UnlikeStep` say what
  one request does. The class `ArticleLikeLedger` does the same request in
  place, and each of its methods is proved equal to its step. The source
  updates the row and the counter together but never states why that is
  right. The invariant `Consistent` says why: each counter equals the
  number of its rows. Both steps are proved to keep it.
- `Store` (`store.dfy`) holds all tables as one value, with referential
  integrity and counter consistency. It models the foreign-key deletion
  rules. Deleting an article cascades to its comments, its like rows and
  the like rows of its comments. Deleting a user cascades to that user's
  like rows and sets the user's articles and comments to the default
  author. It also models saving a new article with the model defaults.
- `ArticleViews` (`article_views.dfy`) holds the other view decisions:
  the index's moderation filter behind the `is_admin` query parameter,
  the update and delete permission gates, and the get-or-create of the tag
  named after the requester's username, which create and update attach.

Each request is one atomic step. The caller being logged in is a
precondition of the like and unlike methods, as `LoginRequiredMixin`
requires.

The model follows the code on these points:
- `like_count` is a plain integer with no lower bound. Unlike does not
  clamp it at 0. Non-negativity is proved from `Consistent` instead.
- An already-existing like returns HTTP 403 (`Forbidden`).
- A title must have 10 to 200 characters.
- A delete-permission holder passes `ArticleDeleteView.test_func` without
  the article being looked up. The update gate looks the article up first
  and answers 404 for a missing one.
- The `is_admin` override is any non-empty value of the query parameter,
  "0" and "false" included.
- The username tag is named after the requester, who is not always the
  author: a moderator who updates an article attaches their own username.

## Model

| member | source | states |
|---|---|---|
| `Models.ParseStatus` | source/webapp/models.py:10-14 | a stored status code is accepted exactly when it is one of the three declared codes, and it reads back as the status it encodes |
| `Models.StatusIsChoice` | source/webapp/models.py:10-23 | every status is stored as a declared (code, label) choice, fits the 15-character column and reads back as itself |
| `Models.CreationDefaults` | source/webapp/models.py:21-49 | an article created with the defaulted fields left out is by user 1, is `new`, has no tags and 0 likes; such a comment is by user 1 and has 0 likes |
| `Models.ArticleBoundsEdges` | source/webapp/models.py:18-20 | `ValidArticle` depends on title and text only: a title of 10 to 200 characters, both ends included, and a non-blank text of at most 3000 |
| `Models.CommentBoundsEdges` | source/webapp/models.py:44 | `ValidComment` depends on the text only: 1 to 400 characters, both ends included |
| `Models.TagBoundsEdges` | source/webapp/models.py:64 | `ValidTag` accepts a name of 1 to 31 characters, both ends included; `TagGetOrCreate` does not check it |
| `Models.ArticleLikedByIff` | source/webapp/models.py:29-31 | `Article.liked_by(user)` (count of the article's rows filtered by user is positive) holds iff the (user, article) row exists |
| `Models.CommentLikedByIff` | source/webapp/models.py:54-56 | `Comment.liked_by(user)` holds iff the (user, comment) row exists |
| `Models.ArticleStrRoundTrip` | source/webapp/models.py:33-34 | the string form `"{pk}. {title}"` of a saved article determines both its key and its title |
| `Models.CommentStr` | source/webapp/models.py:51-52 | a comment's string form is a prefix of its text, of length 20 or the whole text when shorter |
| `Models.CommentStrIdempotent` | source/webapp/models.py:51-52 | shortening a string form again leaves it unchanged |
| `Models.LikeStr` | source/webapp/models.py:81-82 | a like's string form is exactly the username, then `" - "`, then the article title or comment text |
| `Models.LikeStrRoundTrip` | source/webapp/models.py:96-97 | for a username without spaces, splitting a like's string form at its first `" - "` gives back the username and the title or text, whatever the latter contains |
| `LikeLedger.LikeOutcome` | source/webapp/views/article_views.py:101-110 | like on a missing article is NotFound and on an existing row Forbidden, both with no change; otherwise exactly that row is added, that counter rises by 1, and the answer is the new counter |
| `LikeLedger.LikeFrame` | source/webapp/views/article_views.py:103-108 | like leaves other users' rows, other articles' rows and other articles' counters unchanged |
| `LikeLedger.LikePreservesConsistency` | source/webapp/views/article_views.py:104-107 | if every counter equals its number of rows before a like, it does after |
| `LikeLedger.LikeRecordsLiker` | source/webapp/views/article_views.py:104-108 | after a successful like the user is recorded as liking the article, and on a consistent ledger the answer is the article's number of rows |
| `LikeLedger.LikeTwiceForbidden` | source/webapp/views/article_views.py:104-110 | a second like by the same user is Forbidden and changes nothing, so the counter rises at most once |
| `LikeLedger.UnlikeOutcome` | source/webapp/views/article_views.py:113-120 | unlike on a missing article or missing row is NotFound with no change; otherwise exactly that row is removed, that counter drops by 1, and the answer is the new counter |
| `LikeLedger.UnlikeFrame` | source/webapp/views/article_views.py:116-120 | unlike leaves other users' rows, other articles' rows and other articles' counters unchanged |
| `LikeLedger.UnlikePreservesConsistency` | source/webapp/views/article_views.py:116-119 | if every counter equals its number of rows before an unlike, it does after |
| `LikeLedger.UnlikeNeverNegative` | source/webapp/views/article_views.py:118-120 | on a consistent ledger no counter is negative, so the unclamped decrement never answers below 0 |
| `LikeLedger.LikeThenUnlikeRestores` | source/webapp/views/article_views.py:102-120 | a successful like followed by an unlike restores the ledger exactly and answers with the original counter |
| `LikeLedger.ArticleLikeLedger.constructor` | source/webapp/models.py:27 | a fresh ledger has every article at the default count 0 with no rows, which is consistent |
| `LikeLedger.ArticleLikeLedger.Like` | source/webapp/views/article_views.py:101-110 | the in-place like performs `LikeStep` on the ledger state and keeps consistency |
| `LikeLedger.ArticleLikeLedger.Unlike` | source/webapp/views/article_views.py:113-120 | the in-place unlike performs `UnlikeStep` on the ledger state and keeps consistency |
| `LikeLedger.ArticleLikeLedger.LikedBy` | source/webapp/models.py:29-31 | the liked-by query answers true exactly when the (user, article) row exists |
| `Store.ArticleLedgerConsistent` | source/webapp/models.py:27-79 | with referential integrity intact, the ledger invariant over the tables is exactly "each article's `like_count` equals its ArticleLike rows" |
| `Store.SaveNewArticlePreserves` | source/webapp/models.py:17-27 | a saved new article gets a fresh key, is `new` with 0 likes; its zero counter keeps all counters consistent, and integrity and field validity are kept |
| `Store.DeleteArticleCascades` | source/webapp/models.py:41-94 | after deleting an article no comment and no like row refers to it or to its comments; all other articles, comments, rows, users, tags and the key sequence are kept |
| `Store.DeleteArticlePreserves` | source/webapp/models.py:41-94 | deleting an article keeps referential integrity, all remaining counters consistent and fields valid |
| `Store.DeleteUserRules` | source/webapp/models.py:21-92 | deleting a user fails with an integrity error iff the user authored something and user 1 would not remain; otherwise the user's like rows are gone, the user's articles and comments belong to user 1 and nothing else changes |
| `Store.DeleteUserPreservesIntegrity` | source/webapp/models.py:21-92 | a successful user deletion keeps referential integrity and field validity |
| `Store.DeleteUserLeavesStaleCounter` | source/webapp/models.py:76-77 | deleting a user who liked an article succeeds but leaves that article's counter above its number of rows (see Findings) |
| `Store.DeleteUserRecountAgrees` | source/webapp/models.py:21-92 | the corrected user deletion succeeds exactly when the as-written one does and differs from it only in the counters |
| `Store.DeleteUserRecountIntegrity` | source/webapp/models.py:21-92 | the corrected user deletion keeps referential integrity and field validity |
| `Store.DeleteUserRecountKeepsCounters` | source/webapp/models.py:76-94 | the corrected user deletion keeps every article and comment counter equal to its number of rows |
| `ArticleViews.ModeratedOnly` | source/webapp/views/article_views.py:28-30 | `filter(status='moderated')`: the result is never longer than the input and holds exactly the input's moderated articles; `ModeratedOnlyCounts` and `ModeratedOnlyAppend` add multiplicity and order |
| `ArticleViews.ModeratedOnlyAppend` | source/webapp/views/article_views.py:28-30 | filtering a concatenation is the concatenation of the filtered parts, so kept articles stay in order |
| `ArticleViews.ModeratedOnlyCounts` | source/webapp/views/article_views.py:28-30 | each moderated article is kept as often as it occurs and every other one is dropped |
| `ArticleViews.IndexArticles` | source/webapp/views/article_views.py:26-30 | with a truthy `is_admin` the listing is returned unchanged; without one exactly the moderated articles are listed |
| `ArticleViews.IndexArticlesCounts` | source/webapp/views/article_views.py:26-30 | without a truthy flag the index keeps each moderated article as often as it occurs in the listing and drops every other one |
| `ArticleViews.IndexArticlesAppend` | source/webapp/views/article_views.py:26-30 | without a truthy flag the index of two listings one after the other is their indexes one after the other, so the listing's order is kept |
| `ArticleViews.UpdateAccessIff` | source/webapp/views/article_views.py:80-82 | update is granted iff the article exists and the requester holds `change_article` or is its author; a missing article is a 404 |
| `ArticleViews.DeleteAccessIff` | source/webapp/views/article_views.py:96-98 | delete is granted iff the requester holds `delete_article` or is the author of the existing article; the gate raises 404 only for requesters without the permission |
| `ArticleViews.AccessAgreement` | source/webapp/views/article_views.py:80-98 | the author may always update and delete, the anonymous user never may, and the two gates agree when both permissions are held or both lacking |
| `ArticleViews.TagsNamed` | source/webapp/views/article_views.py:69 | the ids found for a name are exactly the tags with that name, in increasing order |
| `ArticleViews.TagGetOrCreate` | source/webapp/views/article_views.py:69 | get-or-create fails iff several tags have the name; otherwise it answers a tag with that name, keeps existing tags, and appends one only if none had the name |
| `ArticleViews.TagGetOrCreateIdempotent` | source/webapp/views/article_views.py:69 | a second get-or-create of the same name finds the same tag and changes nothing |
| `ArticleViews.AttachUsernameTag` | source/webapp/views/article_views.py:69-70 | attaching fails iff the name is ambiguous; otherwise the article's tags become its old tags plus exactly one tag with the username, its other fields and all other articles are kept, the tag table grows by that tag only if no tag had the name, and users, comments, like rows and the key sequence are unchanged |
| `ArticleViews.AttachUsernameTagIdempotent` | source/webapp/views/article_views.py:86-87 | attaching the username tag twice gives the same tables, and so the same tag set, as attaching it once |
| `ArticleViews.AttachUsernameTagPreserves` | source/webapp/views/article_views.py:84-88 | attaching a tag changes no like row and no counter, and keeps integrity and field validity |
| `ArticleViews.CreateArticle` | source/webapp/views/article_views.py:64-71 | the form's article is saved under the next key with its title and text, the requester as author, status `new` and 0 likes, and other articles are kept; the request fails iff several tags have the username, and then the saved article stays with only the form's tags; otherwise its tags are the form's plus one tag with the username, and the tag table grows by one tag exactly when no tag had that name, so an existing username tag is reused |
| `ArticleViews.CreateArticlePreserves` | source/webapp/views/article_views.py:64-71 | creating an article, whether the username tag is attached or the request fails after the save, takes a free key, keeps all existing articles, integrity, all counters consistent and, for valid form fields, field validity |

## Left out

- The URL routing table and the framework dispatcher: they only route requests to views.
- Pagination (`paginate_by`, `ArticleView.paginate_comments`): its page and orphan logic lives in the framework library, which is not part of this model.
- Ordering and searching of the index: the listing is taken as already ordered by descending creation time.
- ArticleViews.IndexArticles: `IndexView` derives from the plain `View` class, not from `ListView`. That class has no `get` handler, so a GET of the index is answered with HTTP 405 before the filter runs, `super().get_queryset()` does not exist on it, and `ordering`, `paginate_by` and `search_fields` have no effect. The model takes the listing a `ListView` over `Article` would supply and models only the filter in `get_queryset`.
- Timestamps (`created_at`, `updated_at`, `make_naive`): they depend on the clock.
- HTTP responses, redirects, templates and the login redirect of the auth mixins: a view's answer is reduced to `Count`, `Forbidden`, `NotFound`, or `Granted`, `Denied`, `ArticleNotFound`.
- The ORM and the database: the tables are one in-memory value and each request is one atomic step.
- Concurrent requests: the double-increment race around get-or-create is not modelled. Neither is any transaction, because the code has none: a request that fails after a save, such as creation when the username tag is ambiguous, keeps what it saved.
- LikeLedger.LikeStep: like rows form a set, so the duplicate (user, article) rows, which the views and models create only through that race, cannot be represented.
- LikeLedger.LikeStep: counters are unbounded integers. The 32-bit range of the database integer column is not modelled.
- Comment like and unlike views: `urls.py` imports them, but their source is not part of this model. Only `CommentLike`, `comm_like_count` and `Comment.liked_by` are modelled.
- `ArticleForm` and `BROWSER_DATETIME_FORMAT` (forms.py is not part of this model). Creation takes the form to supply title, text and tags. Status and `like_count` keep their defaults.
- The field-saving half of `ArticleUpdateView.form_valid`: it depends on `ArticleForm`. Only the tag attachment after it is modelled.
- Permissions: `User.perms` is the effective permission set the authentication backend reports. Superuser and inactive-account rules are not modelled.
- ArticleViews.TagGetOrCreate: it does not check the 31-character tag-name bound against the username. Whether a longer name is refused depends on the database backend.
- `Tag.__str__`, which returns the name unchanged.
- Models.LikeStrRoundTrip: it requires a username without spaces. That is what the framework's default username validator admits, but the validator is not part of this model.
- Field bounds: `ValidArticle` and `ValidComment` state the declared lengths, which the form layer enforces. The operations assume valid form input and do not re-check it.

## Findings

| source | as written | input that shows it | evidently intended | confidence | as-written member | corrected member |
|---|---|---|---|---|---|---|
| source/webapp/models.py:76-77 | deleting a user cascades to the user's ArticleLike and CommentLike rows, but `like_count` and `comm_like_count` of the liked articles and comments are left unchanged | users {1, 2}; article 5 by user 1 with `like_count` 1 and the single row (user 2, article 5); delete user 2 | each counter still equals its number of like rows after the deletion | not executed; the cascade deletes rows without saving the liked articles | `Store.DeleteUserLeavesStaleCounter` | `Store.DeleteUserRecountKeepsCounters` |
