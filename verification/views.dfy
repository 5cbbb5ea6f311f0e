/** The request handlers of posts/views.py as pure functions over the store.
    Read-only handlers return only a response, so they cannot change the
    store; mutating handlers return the new store with the response. */
module Views {
  import opened Wrappers
  import opened Collections
  import opened Models
  import opened Feeds
  import opened Paginator
  import opened Forms

  /** Page sizes of the three feeds. */
  const IndexPerPage: nat := 10
  const GroupPerPage: nat := 10
  const ProfilePerPage: nat := 5

  /** The request method as the views test it: `POST`, or anything else.
      `GET` stands for every other method (HEAD, PUT, ...), all of which take
      the `else` branches of `new_post` and `post_edit`. */
  datatype HttpMethod = GET | POST

  /** Redirect targets, by URL name. */
  datatype Location =
    | IndexUrl
    | LoginUrl
    | ProfileUrl(username: Username)
    | PostUrl(username: Username, postId: PostId)

  /** What a handler answers. `LookupFailed` is an uncaught `DoesNotExist`
      or `MultipleObjectsReturned` from a plain `.get` lookup. */
  datatype Response =
    | IndexHtml(page: Page<PostId>)
    | GroupHtml(group: GroupId, page: Page<PostId>)
    | ProfileHtml(profile: Username, postsCount: nat, page: Page<PostId>)
    | PostHtml(profile: Username, post: PostId, postsCount: nat)
    | PostFormHtml(form: PostForm, editing: Option<PostId>)
    | ConfirmHtml(postId: PostId, username: Username)
    | Redirect(to: Location)
    | NotFound
    | LookupFailed

  /** The store after a mutating handler, and its response. */
  datatype Outcome = Outcome(store: Store, response: Response)

  /** The keys of the posts written by `u`. */
  function OwnedBy(posts: map<PostId, Post>, u: Username): set<PostId>
  {
    set id | id in posts && posts[id].author == u
  }

  /** `Post.objects.filter(author=...).count()`. */
  function PostsCount(posts: map<PostId, Post>, u: Username): (n: nat)
    ensures n <= |posts|
    ensures n == 0 <==> forall id :: id in posts ==> posts[id].author != u
  {
    SubsetCardinality(OwnedBy(posts, u), posts.Keys);
    EmptyIffNoneOwned(posts, u);
    |OwnedBy(posts, u)|
  }

  lemma SubsetCardinality(a: set<PostId>, b: set<PostId>)
    requires a <= b
    ensures |a| <= |b|
  {
    assert b == a + (b - a);
  }

  lemma EmptyIffNoneOwned(posts: map<PostId, Post>, u: Username)
    ensures |OwnedBy(posts, u)| == 0 <==> forall id :: id in posts ==> posts[id].author != u
  {
    if exists id :: id in posts && posts[id].author == u {
      var id :| id in posts && posts[id].author == u;
      assert id in OwnedBy(posts, u);
    }
  }

  /** The number of a user's posts is the length of their profile feed. */
  lemma PostsCountIsFeedLength(posts: map<PostId, Post>, u: Username, xs: seq<PostId>)
    requires IsFeed(posts, ByAuthor(u), xs)
    ensures PostsCount(posts, u) == |xs|
  {
    DistinctCardinality<PostId>(xs);
    var owned := OwnedBy(posts, u);
    var listed := set x: PostId | x in xs;
    forall id ensures id in owned <==> id in listed {
      assert id in xs <==> id in posts && InScope(posts[id], ByAuthor(u));
    }
    assert owned == listed;
    assert |listed| == |xs|;
    assert PostsCount(posts, u) == |owned|;
  }

  /** The count reads nothing but which posts exist and who wrote them. */
  lemma PostsCountCongruent(p1: map<PostId, Post>, p2: map<PostId, Post>, u: Username)
    requires p1.Keys == p2.Keys
    requires forall id :: id in p1 ==> p1[id].author == p2[id].author
    ensures PostsCount(p1, u) == PostsCount(p2, u)
  {
    assert OwnedBy(p1, u) == OwnedBy(p2, u);
  }

  /** `request.user == post.author`; an anonymous requester is nobody's author. */
  predicate IsAuthor(s: Store, requester: Option<Username>, postId: PostId)
    requires postId in s.posts
    ensures requester.None? ==> !IsAuthor(s, requester, postId)
    ensures Valid(s) && IsAuthor(s, requester, postId) ==> requester.value in s.users
  {
    requester == Some(s.posts[postId].author)
  }

  /** `index`: every post, newest first, ten per page. */
  function Index(s: Store, page: Option<int>): (r: Response)
    ensures r.IndexHtml?
    ensures IsFeed(s.posts, AllPosts, r.page.objectList)
    ensures IsPageOf(r.page, r.page.objectList, IndexPerPage)
    ensures r.page.number == ResolvePageNumber(page, r.page.numPages)
  {
    IndexHtml(GetPage(Feed(s.posts, AllPosts), IndexPerPage, page))
  }

  /** The groups whose slug is `slug`. */
  function GroupsWithSlug(groups: map<GroupId, Group>, slug: string): set<GroupId>
  {
    set g | g in groups && groups[g].slug == slug
  }

  /** `group_posts`: 404 for an unknown slug; otherwise the posts of that
      group, newest first, ten per page. */
  function GroupPosts(s: Store, slug: string, page: Option<int>): (r: Response)
    ensures r.NotFound? || r.LookupFailed? || r.GroupHtml?
    ensures r.NotFound? <==> forall g :: g in s.groups ==> s.groups[g].slug != slug
    ensures r.LookupFailed? <==> |GroupsWithSlug(s.groups, slug)| > 1
    ensures r.LookupFailed? ==> !UniqueGroups(s.groups)
    ensures r.GroupHtml? ==>
      && r.group in s.groups
      && s.groups[r.group].slug == slug
      && IsFeed(s.posts, InGroup(r.group), r.page.objectList)
      && IsPageOf(r.page, r.page.objectList, GroupPerPage)
      && r.page.number == ResolvePageNumber(page, r.page.numPages)
  {
    var matches := GroupsWithSlug(s.groups, slug);
    if matches == {} then
      assert forall g :: g in s.groups ==> g !in matches;
      NotFound
    else if |matches| > 1 then
      TwoElements(matches);
      LookupFailed
    else
      var g := MinOf(matches);
      GroupHtml(g, GetPage(Feed(s.posts, InGroup(g)), GroupPerPage, page))
  }

  /** `new_post`: anonymous users are sent to log in; a valid submission
      stores one new post by the requester, timestamped `now`, and redirects
      to the index; anything else shows the form and changes nothing. The
      form is always bound to `request.POST`; for a request other than POST
      that data is empty, so the caller passes `PostForm("", None)`. */
  function NewPost(s: Store, requester: Option<Username>, httpMethod: HttpMethod, form: PostForm, now: Timestamp): (o: Outcome)
    ensures requester.None? ==> o == Outcome(s, Redirect(LoginUrl))
    ensures requester.Some? && (httpMethod == GET || Clean(form, s.groups).None?) ==>
      o == Outcome(s, PostFormHtml(form, None))
    ensures requester.Some? && httpMethod == POST && Clean(form, s.groups).Some? ==>
      var c := Clean(form, s.groups).value;
      && o.response == Redirect(IndexUrl)
      && o.store.posts.Keys == s.posts.Keys + {s.nextPostId}
      && o.store.posts[s.nextPostId] == Post(c.text, now, requester.value, c.group, "")
      && (forall id :: id in s.posts && id != s.nextPostId ==> o.store.posts[id] == s.posts[id])
      && o.store.nextPostId == s.nextPostId + 1
      && o.store.(posts := s.posts, nextPostId := s.nextPostId) == s
  {
    match requester
    case None => Outcome(s, Redirect(LoginUrl))
    case Some(user) =>
      var cleaned := Clean(form, s.groups);
      if httpMethod == POST && cleaned.Some? then
        var post := Post(cleaned.value.text, now, user, cleaned.value.group, "");
        Outcome(s.(posts := s.posts[s.nextPostId := post], nextPostId := s.nextPostId + 1),
                Redirect(IndexUrl))
      else
        Outcome(s, PostFormHtml(form, None))
  }

  /** `profile`: 404 for an unknown user; otherwise that user's posts,
      newest first, five per page, with their number. */
  function Profile(s: Store, username: Username, page: Option<int>): (r: Response)
    ensures r.NotFound? <==> username !in s.users
    ensures !r.NotFound? ==>
      && r.ProfileHtml?
      && r.profile == username
      && IsFeed(s.posts, ByAuthor(username), r.page.objectList)
      && r.postsCount == |r.page.objectList|
      && IsPageOf(r.page, r.page.objectList, ProfilePerPage)
      && r.page.number == ResolvePageNumber(page, r.page.numPages)
  {
    if username !in s.users then NotFound
    else
      var list := Feed(s.posts, ByAuthor(username));
      PostsCountIsFeedLength(s.posts, username, list);
      ProfileHtml(username, PostsCount(s.posts, username), GetPage(list, ProfilePerPage, page))
  }

  /** `post_view`: the post page when the post belongs to the named user,
      otherwise a redirect to that user's profile; a missing user or post is
      a failed lookup. */
  function PostView(s: Store, username: Username, postId: PostId): (r: Response)
    ensures r.LookupFailed? <==> username !in s.users || postId !in s.posts
    ensures r.PostHtml? <==>
      username in s.users && postId in s.posts && s.posts[postId].author == username
    ensures r.PostHtml? ==>
      r.profile == username && r.post == postId && r.postsCount == PostsCount(s.posts, username)
    ensures !r.PostHtml? && !r.LookupFailed? ==> r == Redirect(ProfileUrl(username))
  {
    if username !in s.users then LookupFailed
    else
      var postsCount := PostsCount(s.posts, username);
      if postId !in s.posts then LookupFailed
      else if s.posts[postId].author == username then PostHtml(username, postId, postsCount)
      else Redirect(ProfileUrl(username))
  }

  /** `post_edit`: only the author may edit. A valid submission replaces the
      post's text and group and nothing else; the author keeps the post and
      its publication date. */
  function PostEdit(s: Store, requester: Option<Username>, username: Username, postId: PostId,
                    httpMethod: HttpMethod, form: PostForm): (o: Outcome)
    ensures postId !in s.posts ==> o == Outcome(s, NotFound)
    ensures postId in s.posts && !IsAuthor(s, requester, postId) ==>
      o == Outcome(s, Redirect(PostUrl(username, postId)))
    ensures postId in s.posts && IsAuthor(s, requester, postId) && httpMethod == GET ==>
      o == Outcome(s, PostFormHtml(InitialForm(s.posts[postId]), Some(postId)))
    ensures postId in s.posts && IsAuthor(s, requester, postId) && httpMethod == POST && Clean(form, s.groups).None? ==>
      o == Outcome(s, PostFormHtml(form, Some(postId)))
    ensures postId in s.posts && IsAuthor(s, requester, postId) && httpMethod == POST && Clean(form, s.groups).Some? ==>
      var c := Clean(form, s.groups).value;
      var before := s.posts[postId];
      && o.response == Redirect(PostUrl(username, postId))
      && o.store.posts.Keys == s.posts.Keys
      && o.store.posts[postId].text == c.text
      && o.store.posts[postId].group == c.group
      && o.store.posts[postId].author == before.author
      && o.store.posts[postId].pubDate == before.pubDate
      && o.store.posts[postId].image == before.image
      && (forall id :: id in s.posts && id != postId ==> o.store.posts[id] == s.posts[id])
      && o.store.(posts := s.posts) == s
  {
    if postId !in s.posts then Outcome(s, NotFound)
    else if !IsAuthor(s, requester, postId) then Outcome(s, Redirect(PostUrl(username, postId)))
    else
      var post := s.posts[postId];
      match httpMethod
      case GET => Outcome(s, PostFormHtml(InitialForm(post), Some(postId)))
      case POST =>
        var cleaned := Clean(form, s.groups);
        if cleaned.Some? then
          var edited := post.(text := cleaned.value.text, group := cleaned.value.group, author := requester.value);
          Outcome(s.(posts := s.posts[postId := edited]), Redirect(PostUrl(username, postId)))
        else
          Outcome(s, PostFormHtml(form, Some(postId)))
  }

  /** `post_confirm`: the deletion prompt for the author, a redirect to the
      post for anyone else; never a change. */
  function PostConfirm(s: Store, requester: Option<Username>, username: Username, postId: PostId): (r: Response)
    ensures postId !in s.posts <==> r.NotFound?
    ensures postId in s.posts ==>
      (IsAuthor(s, requester, postId) <==> r == ConfirmHtml(postId, username))
    ensures postId in s.posts && !IsAuthor(s, requester, postId) ==>
      r == Redirect(PostUrl(username, postId))
  {
    if postId !in s.posts then NotFound
    else if IsAuthor(s, requester, postId) then ConfirmHtml(postId, username)
    else Redirect(PostUrl(username, postId))
  }

  /** `post_delete`: the author's request removes exactly that post and
      redirects to the profile named in the URL; anyone else is sent back to
      the post and nothing changes. */
  function PostDelete(s: Store, requester: Option<Username>, username: Username, postId: PostId): (o: Outcome)
    ensures postId !in s.posts ==> o == Outcome(s, NotFound)
    ensures postId in s.posts && !IsAuthor(s, requester, postId) ==>
      o == Outcome(s, Redirect(PostUrl(username, postId)))
    ensures postId in s.posts && IsAuthor(s, requester, postId) ==>
      && o.response == Redirect(ProfileUrl(username))
      && o.store.posts.Keys == s.posts.Keys - {postId}
      && (forall id :: id in o.store.posts ==> o.store.posts[id] == s.posts[id])
      && o.store.(posts := s.posts) == s
  {
    if postId !in s.posts then Outcome(s, NotFound)
    else if IsAuthor(s, requester, postId) then
      Outcome(s.(posts := s.posts - {postId}), Redirect(ProfileUrl(username)))
    else
      Outcome(s, Redirect(PostUrl(username, postId)))
  }
}
