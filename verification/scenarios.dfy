/** The behaviours the repository's own tests check, proved for all stores
    rather than for one fixture. */
module Scenarios {
  import opened Wrappers
  import opened Models
  import opened Feeds
  import opened Paginator
  import opened Forms
  import opened Views
  import opened Site

  /** A post newer than every other post of a feed heads that feed. */
  lemma NewestHeadsFeed(posts: map<PostId, Post>, scope: Scope, xs: seq<PostId>, id: PostId)
    requires IsFeed(posts, scope, xs)
    requires id in posts && InScope(posts[id], scope)
    requires forall other :: other in posts && other != id && InScope(posts[other], scope) ==>
      posts[other].pubDate < posts[id].pubDate
    ensures |xs| > 0 && xs[0] == id
  {
    assert id in xs;
    var k :| 0 <= k < |xs| && xs[k] == id;
    assert posts[xs[0]].pubDate >= posts[xs[k]].pubDate;
  }

  /** A new post, published after every existing one, is shown first on the
      index and on its author's profile, and its own page shows it; each
      time `str(post)` is the submitted text (stripped). */
  lemma NewPostShownEverywhere(s: Store, user: Username, form: PostForm, now: Timestamp)
    requires Valid(s) && user in s.users
    requires Clean(form, s.groups).Some?
    requires forall id :: id in s.posts ==> s.posts[id].pubDate < now
    ensures var t := NewPost(s, Some(user), POST, form, now).store;
      && |Index(t, None).page.objectList| > 0
      && Index(t, None).page.objectList[0] == s.nextPostId
      && |Index(t, None).page.items| > 0
      && Index(t, None).page.items[0] == s.nextPostId
      && Profile(t, user, None).ProfileHtml?
      && |Profile(t, user, None).page.objectList| > 0
      && Profile(t, user, None).page.objectList[0] == s.nextPostId
      && PostView(t, user, s.nextPostId) == PostHtml(user, s.nextPostId, PostsCount(t.posts, user))
      && PostStr(t.posts[s.nextPostId]) == Strip(form.text)
  {
    var t := NewPost(s, Some(user), POST, form, now).store;
    var id := s.nextPostId;
    NewPostAddsExactlyOne(s, user, form, now);
    NewPostPreservesValid(s, Some(user), POST, form, now);
    forall other | other in t.posts && other != id ensures t.posts[other].pubDate < t.posts[id].pubDate {
      assert other in s.posts;
    }
    var index := Index(t, None);
    NewestHeadsFeed(t.posts, AllPosts, index.page.objectList, id);
    PageShape(index.page, index.page.objectList, IndexPerPage);
    var profile := Profile(t, user, None);
    NewestHeadsFeed(t.posts, ByAuthor(user), profile.page.objectList, id);
  }

  /** After the author edits a post, its own page shows the new text. */
  lemma EditShownOnPostPage(s: Store, postId: PostId, form: PostForm)
    requires Valid(s) && postId in s.posts
    requires Clean(form, s.groups).Some?
    ensures var author := s.posts[postId].author;
      var t := PostEdit(s, Some(author), author, postId, POST, form).store;
      && postId in t.posts
      && PostStr(t.posts[postId]) == Strip(form.text)
      && PostView(t, s.posts[postId].author, postId).PostHtml?
  {
  }

  /** After the author edits a post, the index lists the same posts in the
      same order as before, so the edited text shows where the post was.
      The order is only determined when no two posts share a timestamp;
      with ties, `Site.EditKeepsFeedAnswers` states what remains. */
  lemma EditKeepsIndex(s: Store, postId: PostId, form: PostForm, page: Option<int>)
    requires postId in s.posts
    requires DistinctDates(s.posts)
    ensures var author := s.posts[postId].author;
      Index(PostEdit(s, Some(author), author, postId, POST, form).store, page) == Index(s, page)
  {
    var author := s.posts[postId].author;
    EditKeepsFeeds(s, author, author, postId, form);
  }

  /** ... and so does the author's profile, with the same post count. */
  lemma EditKeepsProfile(s: Store, postId: PostId, form: PostForm, page: Option<int>)
    requires postId in s.posts
    requires DistinctDates(s.posts)
    ensures var author := s.posts[postId].author;
      var t := PostEdit(s, Some(author), author, postId, POST, form).store;
      Profile(t, author, page) == Profile(s, author, page)
  {
    var author := s.posts[postId].author;
    var t := PostEdit(s, Some(author), author, postId, POST, form).store;
    EditKeepsFeeds(s, author, author, postId, form);
    EditKeepsRows(s, Some(author), author, postId, POST, form);
    assert t.posts.Keys == s.posts.Keys;
    PostsCountCongruent(s.posts, t.posts, author);
    if author in s.users {
      var list := Feed(s.posts, ByAuthor(author));
      var shown := ProfileHtml(author, PostsCount(s.posts, author), GetPage(list, ProfilePerPage, page));
      assert Profile(t, author, page) == shown;
      assert Profile(s, author, page) == shown;
    }
  }
}
