/** The post lists behind the index, group and profile pages:
    `Post.objects.filter(...).order_by("-pub_date")`.
    The ordering has no tie-breaker, so the contracts promise a list that is
    newest first and holds exactly the matching posts, once each; the concrete
    order this model picks among equal timestamps is one admissible choice. */
module Feeds {
  import opened Wrappers
  import opened Collections
  import opened Models

  /** Which posts a feed shows. */
  datatype Scope = AllPosts | InGroup(group: GroupId) | ByAuthor(author: Username)

  predicate InScope(p: Post, scope: Scope)
  {
    match scope
    case AllPosts => true
    case InGroup(g) => p.group == Some(g)
    case ByAuthor(u) => p.author == u
  }

  /** `pub_date` never increases along the list. */
  predicate NewestFirst(posts: map<PostId, Post>, xs: seq<PostId>)
  {
    && (forall i :: 0 <= i < |xs| ==> xs[i] in posts)
    && (forall i, j :: 0 <= i < j < |xs| ==> posts[xs[i]].pubDate >= posts[xs[j]].pubDate)
  }

  /** `xs` is a correct answer to the feed query for `scope`: every matching
      post exactly once, nothing else, newest first. */
  ghost predicate IsFeed(posts: map<PostId, Post>, scope: Scope, xs: seq<PostId>)
  {
    && Distinct(xs)
    && (forall id :: id in xs <==> id in posts && InScope(posts[id], scope))
    && NewestFirst(posts, xs)
  }

  /** No two posts were published at the same instant. */
  ghost predicate DistinctDates(posts: map<PostId, Post>)
  {
    forall a, b :: a in posts && b in posts && a != b ==> posts[a].pubDate != posts[b].pubDate
  }

  /** The posts of `xs`, in the same order, that fall in `scope`. */
  function Select(posts: map<PostId, Post>, xs: seq<PostId>, scope: Scope): (r: seq<PostId>)
    requires forall y :: y in xs ==> y in posts
    ensures forall y :: y in r <==> y in xs && InScope(posts[y], scope)
    ensures Distinct(xs) ==> Distinct(r)
  {
    if xs == [] then []
    else
      var rest := Select(posts, xs[1..], scope);
      assert forall y :: y in rest ==> y in xs[1..];
      DistinctSplit(xs);
      if InScope(posts[xs[0]], scope) then
        DistinctSplit([xs[0]] + rest);
        [xs[0]] + rest
      else rest
  }

  /** Places `x` in front of the first post of `xs` that is not newer than it. */
  function Insert(posts: map<PostId, Post>, x: PostId, xs: seq<PostId>): (r: seq<PostId>)
    requires x in posts
    requires NewestFirst(posts, xs)
    ensures |r| == |xs| + 1
    ensures forall y :: y in r <==> y == x || y in xs
    ensures NewestFirst(posts, r)
    ensures x !in xs && Distinct(xs) ==> Distinct(r)
  {
    if xs == [] || posts[x].pubDate >= posts[xs[0]].pubDate then
      PrependNewest(posts, x, xs);
      [x] + xs
    else
      var rest := Insert(posts, x, xs[1..]);
      NewerThanAll(posts, xs, x, rest);
      PrependNewest(posts, xs[0], rest);
      DistinctSplit(xs);
      DistinctSplit([xs[0]] + rest);
      [xs[0]] + rest
  }

  /** Insertion adds exactly `x`: the result is a permutation of `[x] + xs`. */
  lemma {:induction false} InsertMultiset(posts: map<PostId, Post>, x: PostId, xs: seq<PostId>)
    requires x in posts
    requires NewestFirst(posts, xs)
    ensures multiset(Insert(posts, x, xs)) == multiset(xs) + multiset{x}
  {
    if xs == [] || posts[x].pubDate >= posts[xs[0]].pubDate {
      assert Insert(posts, x, xs) == [x] + xs;
    } else {
      NewestFirstTail(posts, xs);
      var rest := Insert(posts, x, xs[1..]);
      assert Insert(posts, x, xs) == [xs[0]] + rest;
      InsertMultiset(posts, x, xs[1..]);
      ConsMultiset(xs, x, rest);
    }
  }

  /** Putting the head of `xs` back in front of `rest` restores its multiset. */
  lemma ConsMultiset(xs: seq<PostId>, x: PostId, rest: seq<PostId>)
    requires xs != []
    requires multiset(rest) == multiset(xs[1..]) + multiset{x}
    ensures multiset([xs[0]] + rest) == multiset(xs) + multiset{x}
  {
    assert xs == [xs[0]] + xs[1..];
  }

  lemma HeadMultiset(xs: seq<PostId>)
    requires xs != []
    ensures multiset(xs) == multiset(xs[1..]) + multiset{xs[0]}
  {
    assert xs == [xs[0]] + xs[1..];
  }

  /** Sorting permutes its input: every post keeps its multiplicity. */
  lemma {:induction false} SortIsPermutation(posts: map<PostId, Post>, xs: seq<PostId>)
    requires forall y :: y in xs ==> y in posts
    ensures multiset(SortNewestFirst(posts, xs)) == multiset(xs)
  {
    if xs != [] {
      var rest := SortNewestFirst(posts, xs[1..]);
      assert SortNewestFirst(posts, xs) == Insert(posts, xs[0], rest);
      SortIsPermutation(posts, xs[1..]);
      InsertMultiset(posts, xs[0], rest);
      HeadMultiset(xs);
    }
  }

  /** A post at least as new as the head of a newest-first list may go in front of it. */
  lemma PrependNewest(posts: map<PostId, Post>, h: PostId, t: seq<PostId>)
    requires h in posts
    requires NewestFirst(posts, t)
    requires t == [] || posts[h].pubDate >= posts[t[0]].pubDate
    ensures NewestFirst(posts, [h] + t)
  {
    var r := [h] + t;
    forall i, j | 0 <= i < j < |r| ensures posts[r[i]].pubDate >= posts[r[j]].pubDate {
      if i == 0 && j > 1 {
        assert posts[t[0]].pubDate >= posts[t[j - 1]].pubDate;
      }
    }
  }

  /** The head of a newest-first list is at least as new as every post of
      its tail and every post older than itself. */
  lemma NewerThanAll(posts: map<PostId, Post>, xs: seq<PostId>, x: PostId, rest: seq<PostId>)
    requires xs != [] && x in posts
    requires NewestFirst(posts, xs)
    requires posts[x].pubDate < posts[xs[0]].pubDate
    requires forall y :: y in rest ==> y == x || y in xs[1..]
    requires NewestFirst(posts, rest) && rest != []
    ensures posts[xs[0]].pubDate >= posts[rest[0]].pubDate
  {
    var y := rest[0];
    assert y in rest;
    if y != x {
      var m :| 0 <= m < |xs[1..]| && xs[1..][m] == y;
      assert xs[m + 1] == y;
    }
  }

  /** Insertion sort, newest first. */
  function SortNewestFirst(posts: map<PostId, Post>, xs: seq<PostId>): (r: seq<PostId>)
    requires forall y :: y in xs ==> y in posts
    ensures |r| == |xs|
    ensures forall y :: y in r <==> y in xs
    ensures NewestFirst(posts, r)
    ensures Distinct(xs) ==> Distinct(r)
  {
    if xs == [] then []
    else Insert(posts, xs[0], SortNewestFirst(posts, xs[1..]))
  }

  /** The ordered post list of a feed. */
  function Feed(posts: map<PostId, Post>, scope: Scope): (r: seq<PostId>)
    ensures IsFeed(posts, scope, r)
  {
    SortNewestFirst(posts, Select(posts, Ascending(posts.Keys), scope))
  }

  /** Dropping the head of a newest-first list keeps it newest first. */
  lemma NewestFirstTail(posts: map<PostId, Post>, xs: seq<PostId>)
    requires xs != [] && NewestFirst(posts, xs)
    ensures NewestFirst(posts, xs[1..])
  {
    var t := xs[1..];
    forall i, j | 0 <= i < j < |t| ensures posts[t[i]].pubDate >= posts[t[j]].pubDate {
      assert t[i] == xs[i + 1] && t[j] == xs[j + 1];
    }
  }

  /** Below the head of a list without repetitions lie exactly its other elements. */
  lemma TailMembers(xs: seq<PostId>)
    requires xs != [] && Distinct(xs)
    ensures forall y :: y in xs[1..] <==> y in xs && y != xs[0]
  {
    DistinctSplit(xs);
    assert xs == [xs[0]] + xs[1..];
  }

  /** Two non-empty newest-first lists of the same posts start with the same
      post when no two posts share a timestamp. */
  lemma SameHead(posts: map<PostId, Post>, a: seq<PostId>, b: seq<PostId>)
    requires DistinctDates(posts)
    requires a != [] && b != []
    requires forall y :: y in a <==> y in b
    requires NewestFirst(posts, a) && NewestFirst(posts, b)
    ensures a[0] == b[0]
  {
    assert a[0] in b;
    assert b[0] in a;
    var k :| 0 <= k < |a| && a[k] == b[0];
    var k2 :| 0 <= k2 < |b| && b[k2] == a[0];
    assert posts[a[0]].pubDate >= posts[a[k]].pubDate;
    assert posts[b[0]].pubDate >= posts[b[k2]].pubDate;
  }

  /** Two newest-first lists of the same posts, each without repetitions, are
      equal when no two posts share a timestamp. */
  lemma {:induction false} NewestFirstUnique(posts: map<PostId, Post>, a: seq<PostId>, b: seq<PostId>)
    requires DistinctDates(posts)
    requires Distinct(a) && Distinct(b)
    requires forall y :: y in a <==> y in b
    requires NewestFirst(posts, a) && NewestFirst(posts, b)
    ensures a == b
    decreases |a|
  {
    SameLength(a, b);
    if a != [] {
      SameHead(posts, a, b);
      TailMembers(a);
      TailMembers(b);
      assert forall y :: y in a[1..] <==> y in b[1..];
      DistinctSplit(a);
      DistinctSplit(b);
      NewestFirstTail(posts, a);
      NewestFirstTail(posts, b);
      NewestFirstUnique(posts, a[1..], b[1..]);
      assert a == [a[0]] + a[1..] && b == [b[0]] + b[1..];
    }
  }

  /** When timestamps are distinct, a feed query has exactly one correct answer. */
  lemma FeedUnique(posts: map<PostId, Post>, scope: Scope, a: seq<PostId>, b: seq<PostId>)
    requires DistinctDates(posts)
    requires IsFeed(posts, scope, a) && IsFeed(posts, scope, b)
    ensures a == b
  {
    NewestFirstUnique(posts, a, b);
  }

  /** Two post tables with the same rows and the same publication dates. */
  ghost predicate SameDates(p1: map<PostId, Post>, p2: map<PostId, Post>)
  {
    && p1.Keys == p2.Keys
    && forall id :: id in p1 ==> p1[id].pubDate == p2[id].pubDate
  }

  /** ... that also agree on which rows fall in `scope`. */
  ghost predicate SameFeedData(p1: map<PostId, Post>, p2: map<PostId, Post>, scope: Scope)
  {
    && SameDates(p1, p2)
    && forall id :: id in p1 ==> (InScope(p1[id], scope) <==> InScope(p2[id], scope))
  }

  lemma {:induction false} SelectCongruent(p1: map<PostId, Post>, p2: map<PostId, Post>, xs: seq<PostId>, scope: Scope)
    requires SameFeedData(p1, p2, scope)
    requires forall y :: y in xs ==> y in p1
    ensures Select(p1, xs, scope) == Select(p2, xs, scope)
  {
    if xs != [] {
      SelectCongruent(p1, p2, xs[1..], scope);
    }
  }

  lemma {:induction false} InsertCongruent(p1: map<PostId, Post>, p2: map<PostId, Post>, x: PostId, xs: seq<PostId>)
    requires SameDates(p1, p2)
    requires x in p1 && NewestFirst(p1, xs)
    ensures NewestFirst(p2, xs)
    ensures Insert(p1, x, xs) == Insert(p2, x, xs)
  {
    if xs != [] {
      NewestFirstTail(p1, xs);
      InsertCongruent(p1, p2, x, xs[1..]);
    }
  }

  lemma {:induction false} SortCongruent(p1: map<PostId, Post>, p2: map<PostId, Post>, xs: seq<PostId>)
    requires SameDates(p1, p2)
    requires forall y :: y in xs ==> y in p1
    ensures SortNewestFirst(p1, xs) == SortNewestFirst(p2, xs)
  {
    if xs != [] {
      SortCongruent(p1, p2, xs[1..]);
      InsertCongruent(p1, p2, xs[0], SortNewestFirst(p1, xs[1..]));
    }
  }

  /** A feed reads nothing but which posts exist, their dates and whether they
      match the scope: changing anything else leaves the list as it was. */
  lemma FeedCongruent(p1: map<PostId, Post>, p2: map<PostId, Post>, scope: Scope)
    requires SameFeedData(p1, p2, scope)
    ensures Feed(p1, scope) == Feed(p2, scope)
  {
    var ids := Ascending(p1.Keys);
    SelectCongruent(p1, p2, ids, scope);
    SortCongruent(p1, p2, Select(p1, ids, scope));
  }

  /** Tables that agree on rows, dates and scope membership accept exactly
      the same answers to the feed query, ties included: any order the
      database may return for one is a correct order for the other. */
  lemma SameAnswers(p1: map<PostId, Post>, p2: map<PostId, Post>, scope: Scope, xs: seq<PostId>)
    requires SameFeedData(p1, p2, scope)
    ensures IsFeed(p1, scope, xs) <==> IsFeed(p2, scope, xs)
  {
  }
}
