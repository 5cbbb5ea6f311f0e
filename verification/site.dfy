/** The blog as a state machine: one request at a time against the store.
    Properties that hold of every handler are stated here. */
module Site {
  import opened Wrappers
  import opened Models
  import opened Feeds
  import opened Forms
  import opened Views

  /** A request, routed to its handler. `user` is the authenticated user,
      `None` for an anonymous visitor; `now` is the clock at the request. */
  datatype Request =
    | IndexRequest(page: Option<int>)
    | GroupRequest(slug: string, page: Option<int>)
    | NewPostRequest(user: Option<Username>, httpMethod: HttpMethod, form: PostForm, now: Timestamp)
    | ProfileRequest(username: Username, page: Option<int>)
    | PostRequest(username: Username, postId: PostId)
    | EditRequest(user: Option<Username>, username: Username, postId: PostId, httpMethod: HttpMethod, form: PostForm)
    | ConfirmRequest(user: Option<Username>, username: Username, postId: PostId)
    | DeleteRequest(user: Option<Username>, username: Username, postId: PostId)

  /** The authenticated user, if any, has a row in the user table. */
  predicate Authenticated(s: Store, req: Request)
  {
    match req
    case NewPostRequest(u, _, _, _) => u.None? || u.value in s.users
    case EditRequest(u, _, _, _, _) => u.None? || u.value in s.users
    case ConfirmRequest(u, _, _) => u.None? || u.value in s.users
    case DeleteRequest(u, _, _) => u.None? || u.value in s.users
    case _ => true
  }

  /** The only post a request may create, change or remove. */
  function Touched(s: Store, req: Request): PostId
  {
    match req
    case NewPostRequest(_, _, _, _) => s.nextPostId
    case EditRequest(_, _, id, _, _) => id
    case DeleteRequest(_, _, id) => id
    case _ => 0
  }

  /** `t` differs from `s` at most in the post stored under `touched`:
      users, groups and every other post are as they were. */
  ghost predicate Framed(s: Store, t: Store, touched: PostId)
  {
    && t.users == s.users && t.groups == s.groups
    && t.nextGroupId == s.nextGroupId
    && forall id :: id != touched ==>
      (id in s.posts <==> id in t.posts) && (id in s.posts ==> t.posts[id] == s.posts[id])
  }

  lemma NewPostFramed(s: Store, user: Option<Username>, m: HttpMethod, form: PostForm, now: Timestamp)
    ensures Framed(s, NewPost(s, user, m, form, now).store, s.nextPostId)
  {
  }

  lemma PostEditFramed(s: Store, user: Option<Username>, username: Username, postId: PostId, m: HttpMethod, form: PostForm)
    ensures Framed(s, PostEdit(s, user, username, postId, m, form).store, postId)
  {
  }

  lemma PostDeleteFramed(s: Store, user: Option<Username>, username: Username, postId: PostId)
    ensures Framed(s, PostDelete(s, user, username, postId).store, postId)
  {
  }

  /** Dispatches a request to its handler. No request changes users or
      groups, and every post other than the one it targets keeps its key
      and its contents. */
  function Handle(s: Store, req: Request): (o: Outcome)
    ensures Framed(s, o.store, Touched(s, req))
    ensures !(req.NewPostRequest? || req.EditRequest? || req.DeleteRequest?) ==> o.store == s
    ensures o.store.nextPostId == s.nextPostId
         || (req.NewPostRequest? && o.store.nextPostId == s.nextPostId + 1)
  {
    match req
    case IndexRequest(page) => Outcome(s, Index(s, page))
    case GroupRequest(slug, page) => Outcome(s, GroupPosts(s, slug, page))
    case NewPostRequest(user, m, form, now) =>
      NewPostFramed(s, user, m, form, now);
      NewPost(s, user, m, form, now)
    case ProfileRequest(username, page) => Outcome(s, Profile(s, username, page))
    case PostRequest(username, postId) => Outcome(s, PostView(s, username, postId))
    case EditRequest(user, username, postId, m, form) =>
      PostEditFramed(s, user, username, postId, m, form);
      PostEdit(s, user, username, postId, m, form)
    case ConfirmRequest(user, username, postId) => Outcome(s, PostConfirm(s, user, username, postId))
    case DeleteRequest(user, username, postId) =>
      PostDeleteFramed(s, user, username, postId);
      PostDelete(s, user, username, postId)
  }

  lemma NewPostPreservesValid(s: Store, user: Option<Username>, m: HttpMethod, form: PostForm, now: Timestamp)
    requires Valid(s)
    requires user.None? || user.value in s.users
    ensures Valid(NewPost(s, user, m, form, now).store)
  {
    var t := NewPost(s, user, m, form, now).store;
    if t != s {
      forall id | id in t.posts ensures 1 <= id < t.nextPostId && Linked(t, t.posts[id]) {
        if id != s.nextPostId {
          assert id in s.posts;
        }
      }
    }
  }

  lemma PostEditPreservesValid(s: Store, user: Option<Username>, username: Username, postId: PostId, m: HttpMethod, form: PostForm)
    requires Valid(s)
    ensures Valid(PostEdit(s, user, username, postId, m, form).store)
  {
    var t := PostEdit(s, user, username, postId, m, form).store;
    if t != s {
      forall id | id in t.posts ensures 1 <= id < t.nextPostId && Linked(t, t.posts[id]) {
        assert id in s.posts;
        if id != postId {
          assert t.posts[id] == s.posts[id];
        }
      }
    }
  }

  lemma PostDeletePreservesValid(s: Store, user: Option<Username>, username: Username, postId: PostId)
    requires Valid(s)
    ensures Valid(PostDelete(s, user, username, postId).store)
  {
  }

  /** Every handler keeps the database consistent. */
  lemma HandlePreservesValid(s: Store, req: Request)
    requires Valid(s) && Authenticated(s, req)
    ensures Valid(Handle(s, req).store)
  {
    match req
    case NewPostRequest(user, m, form, now) => NewPostPreservesValid(s, user, m, form, now);
    case EditRequest(user, username, postId, m, form) => PostEditPreservesValid(s, user, username, postId, m, form);
    case DeleteRequest(user, username, postId) => PostDeletePreservesValid(s, user, username, postId);
    case _ =>
  }

  /** `pub_date` and the author are fixed when a post is created: in a
      consistent store no request changes them for an existing post. */
  lemma DateAndAuthorFixed(s: Store, req: Request)
    requires Valid(s)
    ensures forall id :: id in s.posts && id in Handle(s, req).store.posts ==>
      && Handle(s, req).store.posts[id].pubDate == s.posts[id].pubDate
      && Handle(s, req).store.posts[id].author == s.posts[id].author
  {
  }

  /** A request that changes the store is answered with a redirect
      (post/redirect/get). */
  lemma MutationsRedirect(s: Store, req: Request)
    ensures Handle(s, req).store != s ==> Handle(s, req).response.Redirect?
  {
  }

  /** The confirmation prompt is shown exactly to those whose deletion
      request would remove the post. */
  lemma ConfirmIffDeletes(s: Store, user: Option<Username>, username: Username, postId: PostId)
    ensures PostConfirm(s, user, username, postId).ConfirmHtml? <==>
      PostDelete(s, user, username, postId).store != s
  {
    if postId in s.posts && IsAuthor(s, user, postId) {
      assert postId !in PostDelete(s, user, username, postId).store.posts;
    }
  }

  /** In a consistent store a successful submission adds exactly one post,
      under a fresh key, and keeps every existing post. */
  lemma NewPostAddsExactlyOne(s: Store, user: Username, form: PostForm, now: Timestamp)
    requires Valid(s)
    requires Clean(form, s.groups).Some?
    ensures s.nextPostId !in s.posts
    ensures |NewPost(s, Some(user), POST, form, now).store.posts| == |s.posts| + 1
    ensures NewPost(s, Some(user), POST, form, now).store.posts.Keys - s.posts.Keys == {s.nextPostId}
    ensures forall id :: id in s.posts ==> NewPost(s, Some(user), POST, form, now).store.posts[id] == s.posts[id]
  {
    var t := NewPost(s, Some(user), POST, form, now).store;
    assert t.posts.Keys == s.posts.Keys + {s.nextPostId};
  }

  /** An edit keeps every post, its author and its date. */
  lemma EditKeepsRows(s: Store, user: Option<Username>, username: Username, postId: PostId, m: HttpMethod, form: PostForm)
    ensures var t := PostEdit(s, user, username, postId, m, form).store;
      && t.users == s.users
      && SameDates(s.posts, t.posts)
      && forall id :: id in s.posts ==> t.posts[id].author == s.posts[id].author
  {
    var t := PostEdit(s, user, username, postId, m, form).store;
    if t != s {
      assert postId in s.posts;
      forall id | id in s.posts
        ensures t.posts[id].pubDate == s.posts[id].pubDate && t.posts[id].author == s.posts[id].author
      {
      }
    }
  }

  /** Tables with the same rows, dates and authors agree on the index and
      on every author's feed. */
  lemma AuthorFeedData(p1: map<PostId, Post>, p2: map<PostId, Post>, username: Username)
    requires SameDates(p1, p2)
    requires forall id :: id in p1 ==> p2[id].author == p1[id].author
    ensures SameFeedData(p1, p2, AllPosts)
    ensures SameFeedData(p1, p2, ByAuthor(username))
  {
  }

  /** An edit changes no correct answer of the index or of the author's
      feed: a list is a correct newest-first answer after the edit iff it
      was one before, whatever order ties are given. */
  lemma EditKeepsFeedAnswers(s: Store, user: Username, username: Username, postId: PostId, form: PostForm, xs: seq<PostId>)
    ensures var t := PostEdit(s, Some(user), username, postId, POST, form).store;
      && (IsFeed(t.posts, AllPosts, xs) <==> IsFeed(s.posts, AllPosts, xs))
      && (IsFeed(t.posts, ByAuthor(username), xs) <==> IsFeed(s.posts, ByAuthor(username), xs))
  {
    var t := PostEdit(s, Some(user), username, postId, POST, form).store;
    EditKeepsRows(s, Some(user), username, postId, POST, form);
    AuthorFeedData(s.posts, t.posts, username);
    SameAnswers(s.posts, t.posts, AllPosts, xs);
    SameAnswers(s.posts, t.posts, ByAuthor(username), xs);
  }

  /** When no two posts share a timestamp the feed order is determined, so
      after an edit the index and the author's feed are the very same
      lists. */
  lemma EditKeepsFeeds(s: Store, user: Username, username: Username, postId: PostId, form: PostForm)
    requires DistinctDates(s.posts)
    ensures Feed(PostEdit(s, Some(user), username, postId, POST, form).store.posts, AllPosts) == Feed(s.posts, AllPosts)
    ensures Feed(PostEdit(s, Some(user), username, postId, POST, form).store.posts, ByAuthor(username)) == Feed(s.posts, ByAuthor(username))
  {
    var t := PostEdit(s, Some(user), username, postId, POST, form).store;
    var all := Feed(t.posts, AllPosts);
    var mine := Feed(t.posts, ByAuthor(username));
    EditKeepsFeedAnswers(s, user, username, postId, form, all);
    EditKeepsFeedAnswers(s, user, username, postId, form, mine);
    FeedUnique(s.posts, AllPosts, all, Feed(s.posts, AllPosts));
    FeedUnique(s.posts, ByAuthor(username), mine, Feed(s.posts, ByAuthor(username)));
  }
}
