/** The decisions the article views make besides the like ledger: which
    articles the index lists, who may update or delete an article, and the
    tag named after the requester's username that create and update attach. */
module ArticleViews {
  import opened Models
  import opened Store

  // ---------------------------------------------------------------------------
  // Index: the moderation filter
  // ---------------------------------------------------------------------------

  /** Python truthiness of a query parameter: absent and empty are false,
      every other value (also "0" or "false") is true. */
  predicate Truthy(param: Option<string>) {
    param.Some? && param.value != ""
  }

  /** The articles whose status is moderated, in their original order. */
  function ModeratedOnly(articles: seq<Article>): (r: seq<Article>)
    ensures |r| <= |articles|
    ensures forall a :: a in r <==> a in articles && a.status == Moderated
  {
    if articles == [] then []
    else
      (if articles[0].status == Moderated then [articles[0]] else [])
      + ModeratedOnly(articles[1..])
  }

  /** Filtering a concatenation filters each part and keeps them in order,
      so the filter keeps the relative order of the articles it keeps. */
  lemma {:induction false} ModeratedOnlyAppend(s: seq<Article>, t: seq<Article>)
    ensures ModeratedOnly(s + t) == ModeratedOnly(s) + ModeratedOnly(t)
  {
    if s == [] {
      assert s + t == t;
    } else {
      assert (s + t)[0] == s[0];
      assert (s + t)[1..] == s[1..] + t;
      ModeratedOnlyAppend(s[1..], t);
    }
  }

  /** Each moderated article is kept as often as it occurs, every other is dropped. */
  lemma {:induction false} ModeratedOnlyCounts(s: seq<Article>, a: Article)
    ensures multiset(ModeratedOnly(s))[a] == if a.status == Moderated then multiset(s)[a] else 0
  {
    if s != [] {
      assert s == [s[0]] + s[1..];
      ModeratedOnlyCounts(s[1..], a);
    }
  }

  /** `IndexView.get_queryset`: the ordered listing is filtered to moderated
      articles unless the `is_admin` parameter is truthy. */
  function IndexArticles(listing: seq<Article>, isAdmin: Option<string>): (r: seq<Article>)
    ensures Truthy(isAdmin) ==> r == listing
    ensures !Truthy(isAdmin) ==> forall a :: a in r <==> a in listing && a.status == Moderated
  {
    if Truthy(isAdmin) then listing else ModeratedOnly(listing)
  }

  /** Without a truthy flag the index keeps exactly the moderated articles,
      each as often as it occurs in the listing. */
  lemma IndexArticlesCounts(listing: seq<Article>, isAdmin: Option<string>)
    requires !Truthy(isAdmin)
    ensures forall a :: multiset(IndexArticles(listing, isAdmin))[a] ==
                        if a.status == Moderated then multiset(listing)[a] else 0
  {
    forall a ensures multiset(IndexArticles(listing, isAdmin))[a] ==
                     if a.status == Moderated then multiset(listing)[a] else 0 {
      ModeratedOnlyCounts(listing, a);
    }
  }

  /** Without a truthy flag the index of a listing split in two is the index
      of each part, one after the other: the listing's order is kept. */
  lemma IndexArticlesAppend(s: seq<Article>, t: seq<Article>, isAdmin: Option<string>)
    requires !Truthy(isAdmin)
    ensures IndexArticles(s + t, isAdmin) == IndexArticles(s, isAdmin) + IndexArticles(t, isAdmin)
  {
    ModeratedOnlyAppend(s, t);
  }

  // ---------------------------------------------------------------------------
  // Update and delete permissions
  // ---------------------------------------------------------------------------

  const ChangeArticlePerm := "webapp.change_article"
  const DeleteArticlePerm := "webapp.delete_article"

  /** `user.has_perm(perm)`; the anonymous user holds no permission. */
  predicate HasPerm(requester: Requester, perm: string) {
    requester.Authenticated? && perm in requester.user.perms
  }

  /** `article.author == request.user`; never true of the anonymous user. */
  predicate IsAuthor(requester: Requester, article: Article) {
    requester.Authenticated? && requester.user.id == article.author
  }

  /** A permission check either grants, denies or fails with 404 while
      looking the article up. */
  datatype Access = Granted | Denied | ArticleNotFound

  /** `ArticleUpdateView.has_permission`: the article is looked up first,
      then the change permission or authorship grants access. */
  function UpdateAccess(articles: map<ArticleId, Article>, pk: ArticleId, requester: Requester): Access {
    if pk !in articles then ArticleNotFound
    else if HasPerm(requester, ChangeArticlePerm) || IsAuthor(requester, articles[pk]) then Granted
    else Denied
  }

  /** `ArticleDeleteView.test_func`: the delete permission is checked first and
      short-circuits; only without it is the article looked up for authorship. */
  function DeleteAccess(articles: map<ArticleId, Article>, pk: ArticleId, requester: Requester): Access {
    if HasPerm(requester, DeleteArticlePerm) then Granted
    else if pk !in articles then ArticleNotFound
    else if IsAuthor(requester, articles[pk]) then Granted
    else Denied
  }

  /** Update is granted exactly on an existing article to a holder of
      `change_article` or the author; a missing article is always a 404. */
  lemma UpdateAccessIff(articles: map<ArticleId, Article>, pk: ArticleId, requester: Requester)
    ensures UpdateAccess(articles, pk, requester) == Granted <==>
            pk in articles && (HasPerm(requester, ChangeArticlePerm) || IsAuthor(requester, articles[pk]))
    ensures UpdateAccess(articles, pk, requester) == ArticleNotFound <==> pk !in articles
  {
  }

  /** Delete is granted exactly to a holder of `delete_article`, or to the
      author of an existing article; the gate raises 404 only for requesters
      without the permission. */
  lemma DeleteAccessIff(articles: map<ArticleId, Article>, pk: ArticleId, requester: Requester)
    ensures DeleteAccess(articles, pk, requester) == Granted <==>
            HasPerm(requester, DeleteArticlePerm) || (pk in articles && IsAuthor(requester, articles[pk]))
    ensures DeleteAccess(articles, pk, requester) == ArticleNotFound <==>
            pk !in articles && !HasPerm(requester, DeleteArticlePerm)
  {
  }

  /** The author may always update and delete their own article, the
      anonymous user never may, and on an existing article update and delete
      agree for everyone whose permissions are the same for both. */
  lemma AccessAgreement(articles: map<ArticleId, Article>, pk: ArticleId, requester: Requester)
    requires pk in articles
    ensures IsAuthor(requester, articles[pk]) ==>
              UpdateAccess(articles, pk, requester) == Granted && DeleteAccess(articles, pk, requester) == Granted
    ensures requester.Anonymous? ==>
              UpdateAccess(articles, pk, requester) == Denied && DeleteAccess(articles, pk, requester) == Denied
    ensures HasPerm(requester, ChangeArticlePerm) == HasPerm(requester, DeleteArticlePerm) ==>
              UpdateAccess(articles, pk, requester) == DeleteAccess(articles, pk, requester)
  {
  }

  // ---------------------------------------------------------------------------
  // The tag named after the requester's username
  // ---------------------------------------------------------------------------

  /** Ids of the tags named `name`, in increasing order. */
  function TagsNamed(tags: seq<Tag>, name: string): (r: seq<TagId>)
    ensures forall i :: i in r <==> 0 <= i < |tags| && tags[i].name == name
    ensures forall j :: 0 <= j < |r| ==> r[j] < |tags|
    ensures forall j, k :: 0 <= j < k < |r| ==> r[j] < r[k]
  {
    if tags == [] then []
    else
      var last := |tags| - 1;
      TagsNamed(tags[..last], name) + (if tags[last].name == name then [last] else [])
  }

  /** Appending a tag adds its id at the end of the matches when its name matches. */
  lemma TagsNamedAppend(tags: seq<Tag>, tag: Tag, name: string)
    ensures TagsNamed(tags + [tag], name) == TagsNamed(tags, name) + (if tag.name == name then [|tags|] else [])
  {
    assert (tags + [tag])[..|tags|] == tags;
  }

  /** `Tag.objects.get_or_create(name=name)`: the one tag with that name, a new
      tag appended when there is none, and an error when there are several. */
  function TagGetOrCreate(tags: seq<Tag>, name: string): (r: Result<(seq<Tag>, TagId)>)
    ensures r.Err? <==> |TagsNamed(tags, name)| > 1
    ensures r.Ok? ==> var (tags', id) := r.value;
      && tags <= tags' && |tags'| <= |tags| + 1
      && id < |tags'| && tags'[id].name == name
      && (|tags'| == |tags| + 1 <==> forall i :: 0 <= i < |tags| ==> tags[i].name != name)
  {
    var found := TagsNamed(tags, name);
    if |found| == 0 then Ok((tags + [Tag(name)], |tags|))
    else if |found| == 1 then
      assert found[0] in found;
      Ok((tags, found[0]))
    else Err(MultipleObjectsReturned)
  }

  /** Once the tag exists, get-or-create finds it and changes nothing. */
  lemma TagGetOrCreateIdempotent(tags: seq<Tag>, name: string)
    requires TagGetOrCreate(tags, name).Ok?
    ensures var (tags', id) := TagGetOrCreate(tags, name).value;
      TagGetOrCreate(tags', name) == Ok((tags', id))
  {
    if |TagsNamed(tags, name)| == 0 {
      TagsNamedAppend(tags, Tag(name), name);
    }
  }

  /** `Tag.objects.get_or_create(name=username)` followed by
      `article.tags.add(tag)` on the saved article `pk`. */
  function AttachUsernameTag(t: Tables, pk: ArticleId, username: string): (r: Result<Tables>)
    requires pk in t.articles
    ensures r.Err? <==> |TagsNamed(t.tags, username)| > 1
    ensures r.Ok? ==>
      && r.value.articles.Keys == t.articles.Keys
      && pk in r.value.articles
      && (exists g :: && 0 <= g < |r.value.tags| && r.value.tags[g].name == username
                      && r.value.articles[pk].tags == t.articles[pk].tags + {g})
      && r.value.articles[pk].(tags := t.articles[pk].tags) == t.articles[pk]
      && (forall a :: a in t.articles && a != pk ==> r.value.articles[a] == t.articles[a])
      && t.tags <= r.value.tags && |r.value.tags| <= |t.tags| + 1
      && (|r.value.tags| == |t.tags| + 1 <==> forall i :: 0 <= i < |t.tags| ==> t.tags[i].name != username)
      && r.value.(tags := t.tags, articles := t.articles) == t
  {
    match TagGetOrCreate(t.tags, username)
    case Err(e) => Err(e)
    case Ok((tags', id)) =>
      var article := t.articles[pk];
      var u := t.(tags := tags', articles := t.articles[pk := article.(tags := article.tags + {id})]);
      assert u.articles[pk].tags == t.articles[pk].tags + {id} && u.tags[id].name == username;
      assert u.(tags := t.tags, articles := t.articles) == t;
      Ok(u)
  }

  /** Attaching the username tag a second time finds the same tag and yields the
      same tables, so the article's tag set is that of attaching it once. */
  lemma AttachUsernameTagIdempotent(t: Tables, pk: ArticleId, username: string)
    requires pk in t.articles
    requires AttachUsernameTag(t, pk, username).Ok?
    ensures AttachUsernameTag(AttachUsernameTag(t, pk, username).value, pk, username) ==
            AttachUsernameTag(t, pk, username)
  {
    var u := AttachUsernameTag(t, pk, username).value;
    TagGetOrCreateIdempotent(t.tags, username);
    var (tags', id) := TagGetOrCreate(t.tags, username).value;
    assert TagGetOrCreate(u.tags, username) == Ok((tags', id));
    assert u.articles[pk].tags + {id} == u.articles[pk].tags;
    assert u.articles[pk := u.articles[pk].(tags := u.articles[pk].tags + {id})] == u.articles;
  }

  /** Attaching a tag changes neither the like rows nor any counter, and keeps
      references intact. */
  lemma AttachUsernameTagPreserves(t: Tables, pk: ArticleId, username: string)
    requires Integral(t)
    requires pk in t.articles
    requires AttachUsernameTag(t, pk, username).Ok?
    ensures var u := AttachUsernameTag(t, pk, username).value;
      && Integral(u)
      && u.articleLikes == t.articleLikes && u.commentLikes == t.commentLikes
      && (ArticleCountersConsistent(t) ==> ArticleCountersConsistent(u))
      && (CommentCountersConsistent(t) ==> CommentCountersConsistent(u))
      && (FieldsValid(t) ==> FieldsValid(u))
  {
    var u := AttachUsernameTag(t, pk, username).value;
    var (tags', id) := TagGetOrCreate(t.tags, username).value;
    assert u.articles[pk].tags == t.articles[pk].tags + {id};
  }

  // ---------------------------------------------------------------------------
  // Creating an article
  // ---------------------------------------------------------------------------

  /** `ArticleCreateView.form_valid`: save the form's article with the
      requester as author and the form's tags, then attach the username tag.
      The article is saved before the tag is looked up and nothing undoes the
      save, so when the lookup fails the tables keep the saved article, with
      the form's tags only, next to the error. */
  function CreateArticle(t: Tables, requester: User, title: string, text: string, tags: set<TagId>): (r: (Tables, Result<ArticleId>))
    ensures var (u, res) := r; var pk := t.nextArticleId;
      && (res.Err? <==> |TagsNamed(t.tags, requester.username)| > 1)
      && (res.Ok? ==> res.value == pk)
      && u.articles.Keys == t.articles.Keys + {pk}
      && u.nextArticleId == pk + 1
      && u.articles[pk].title == title && u.articles[pk].text == text
      && u.articles[pk].author == requester.id
      && u.articles[pk].status == New && u.articles[pk].likeCount == 0
      && (res.Ok? ==> exists g :: && 0 <= g < |u.tags| && u.tags[g].name == requester.username
                                  && u.articles[pk].tags == tags + {g})
      && (res.Err? ==> u.articles[pk].tags == tags && u.tags == t.tags)
      && t.tags <= u.tags && |u.tags| <= |t.tags| + 1
      && (|u.tags| == |t.tags| + 1 <==>
            res.Ok? && forall i :: 0 <= i < |t.tags| ==> t.tags[i].name != requester.username)
      && (forall a :: a in t.articles && a != pk ==> u.articles[a] == t.articles[a])
      && u.(tags := t.tags, articles := t.articles, nextArticleId := t.nextArticleId) == t
  {
    var (saved, pk) := SaveNewArticle(t, title, text, requester.id, tags);
    match AttachUsernameTag(saved, pk, requester.username)
    case Err(e) => (saved, Err(e))
    case Ok(u) => (u, Ok(pk))
  }

  /** Creating an article, whether or not the username tag can be attached,
      keeps references intact and every counter consistent, and the new key
      was free. */
  lemma CreateArticlePreserves(t: Tables, requester: User, title: string, text: string, tags: set<TagId>)
    requires Integral(t)
    requires requester.id in t.users
    requires forall g :: g in tags ==> g < |t.tags|
    ensures var u := CreateArticle(t, requester, title, text, tags).0;
      && t.nextArticleId !in t.articles
      && (forall a :: a in t.articles ==> u.articles[a] == t.articles[a])
      && Integral(u)
      && (ArticleCountersConsistent(t) ==> ArticleCountersConsistent(u))
      && (CommentCountersConsistent(t) ==> CommentCountersConsistent(u))
      && (FieldsValid(t) && ValidArticle(Article(title, text)) ==> FieldsValid(u))
  {
    var (saved, pk) := SaveNewArticle(t, title, text, requester.id, tags);
    SaveNewArticlePreserves(t, title, text, requester.id, tags);
    if AttachUsernameTag(saved, pk, requester.username).Ok? {
      AttachUsernameTagPreserves(saved, pk, requester.username);
    }
  }
}
