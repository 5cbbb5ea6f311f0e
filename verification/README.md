# Yatube blog core in Dafny

A model of the request logic of the Yatube blog (a Django site where users
publish text posts, optionally filed under a group, and browse them by group
or by author), together with its data model, its image-size validator and the
registration e-mail.

The database is an immutable `Store`: the user table (users are identified by
username), the group and post tables keyed by primary key, and the next value
of each autoincrement sequence. Each view of `posts/views.py` is a pure
function. The read-only views (`index`, `group_posts`, `profile`, `post_view`,
`post_confirm`) return only a `Response`, so they cannot change the store. The
mutating views (`new_post`, `post_edit`, `post_delete`) return an
`Outcome(store, response)`. A response is a rendered page (with its page of
post ids), a redirect, a 404, or a failed plain `.get` lookup. `Site.Handle`
routes a request to its view and turns the site into a state machine over the
store.

Modules, one file each:

- `wrappers.dfy` (`Wrappers`): `Option` and `Result`.
- `collections.dfy` (`Collections`): lists without repetitions, and ascending
  enumeration of a finite set of keys.
- `models.dfy` (`Models`): `Group`, `Post` and `__str__`, and the store. It
  holds the consistency invariant `Valid`: unique slug and title, foreign keys
  that resolve, keys below their sequence. It also holds the unique
  constraints and the cascading deletes.
- `feeds.dfy` (`Feeds`): the `filter(...).order_by("-pub_date")` queries.
- `paginator.dfy` (`Paginator`): `Paginator(list, n).get_page(number)`.
- `forms.dfy` (`Forms`): cleaning of `PostForm` (fields `text` and `group`).
- `views.dfy` (`Views`): the eight views.
- `site.dfy` (`Site`): the request dispatcher and the properties shared by all
  handlers.
- `scenarios.dfy` (`Scenarios`): the behaviours checked by the repository's
  tests, proved for every store.
- `validators.dfy` (`Validators`): `validate_file_size`.
- `signup.dfy` (`Signup`): `SignUp.send_email` and `SignUp.form_valid`.

Inputs that the code takes from outside are parameters:

- the authenticated user: `Option<Username>`, with `None` for an anonymous
  visitor;
- the clock read by `auto_now_add`: `now`;
- the `page` query parameter: `Option<int>`, with `None` when it is missing or
  not an integer;
- the submitted form data: `PostForm`;
- the mail outbox: a list of `Mail`.

Behaviour of the code that the model keeps:

- `order_by("-pub_date")` has no tie-breaker. The contracts therefore promise
  only a newest-first list of exactly the matching posts, with no fixed order
  among equal timestamps. `Feeds.FeedUnique` shows that the order is fully
  determined when timestamps are distinct.
- An out-of-range page number gives the last page. This includes numbers below
  1, which the paginator treats like numbers past the end.
- `post_delete` deletes on any HTTP method. `post_edit`, `post_confirm` and
  `post_delete` check only that the requester is the post's author. The
  username in the URL is used only to build the redirect.
- `post_view` uses plain `.get` lookups. A missing user or post is therefore a
  failed lookup (`LookupFailed`) rather than the 404 that the other views give.
- `validate_file_size` is not attached to `Post.image` in the model class. It
  is modelled on its own.

## Model

| member | source | states |
|---|---|---|
| `Models.AddGroup` | posts/models.py:12-13 | inserting a group fails exactly when its title or its slug is already taken; otherwise one group is added and nothing else changes |
| `Models.AddGroupAddsExactlyOne` | posts/models.py:12-13 | in a consistent store a successful insert adds one group under a fresh key, so the table grows by one, and every existing group is unchanged |
| `Models.AddGroupPreservesValid` | posts/models.py:12-13 | the unique constraints keep "no two groups share a slug or a title" true |
| `Models.GroupStr` | posts/models.py:16-17 | `str(group)` is the group's title |
| `Models.PostStr` | posts/models.py:30-31 | `str(post)` is the post's text, which is what the pages and the tests compare |
| `Models.AddUser` | users/views.py:18 | saving the registered user adds exactly that username and leaves groups, posts and sequences unchanged |
| `Models.GroupStrIdentifies` | posts/models.py:16-17 | in a consistent store `str(group)` (its title) names one group: equal strings iff same group |
| `Models.DeleteUser` | posts/models.py:26 | deleting a user removes exactly that user's posts and keeps every other post unchanged |
| `Models.DeleteUserPreservesValid` | posts/models.py:26 | after the cascade no post refers to a missing author |
| `Models.DeleteGroup` | posts/models.py:27 | deleting a group removes exactly the posts filed under it and keeps every other post and group unchanged |
| `Models.DeleteGroupPreservesValid` | posts/models.py:27 | after the cascade every post's optional group refers to an existing group |
| `Feeds.Feed` | posts/views.py:23 | a feed lists every post in scope exactly once, nothing else, with `pub_date` non-increasing |
| `Feeds.FeedUnique` | posts/views.py:13 | when no two posts share a timestamp, any two lists that answer the same feed query are equal |
| `Feeds.FeedCongruent` | posts/views.py:50 | the list this model computes depends only on which posts exist, their dates and whether they match the scope |
| `Feeds.SameAnswers` | posts/views.py:50 | tables that agree on rows, dates and scope membership accept exactly the same correct answers to the feed query, in any tie order |
| `Feeds.SortNewestFirst` | posts/views.py:13 | sorting returns the same posts, as many as given, newest first, with no repetitions when the input has none |
| `Feeds.SortIsPermutation` | posts/views.py:13 | sorting is a permutation: every post keeps its multiplicity (equal multisets) |
| `Feeds.InsertMultiset` | posts/views.py:13 | inserting one post into a newest-first list adds exactly that post and drops nothing |
| `Collections.DistinctCardinality` | posts/views.py:49-50 | a list without repetitions has as many entries as the set of its entries, which makes `count()` equal to the length of the ordered list |
| `Paginator.NumPages` | posts/views.py:14 | there is at least one page, the pages hold every item, and no trailing page is empty |
| `Paginator.ResolvePageNumber` | posts/views.py:15-16 | the page shown is always in 1..num_pages; an in-range request is honoured; a missing or non-integer one gives page 1; any other gives the last page |
| `Paginator.GetPage` | posts/views.py:14-16 | the page holds the items of the list at offset (number-1)*per_page, as many as remain up to per_page, and keeps the whole ordered list as `object_list` |
| `Paginator.PageShape` | posts/views.py:51-53 | no page holds more than per_page items; every page but the last is full; the last page is empty only for an empty list |
| `Paginator.ItemOnItsPage` | posts/views.py:24-26 | the item at rank i is on page i / per_page + 1 at position i % per_page, so every post of a feed can be reached |
| `Forms.Strip` | posts/forms.py:12 | the cleaned text is the submitted text with surrounding whitespace removed and nothing else removed |
| `Forms.StripFixesTrimmed` | posts/forms.py:12 | cleaning leaves a text unchanged iff it has no surrounding whitespace |
| `Forms.Clean` | posts/forms.py:12 | the form is valid iff the stripped text is non-empty and the selected group, if any, exists; the cleaned data are that text and that group |
| `Forms.InitialForm` | posts/views.py:82 | the edit form first shows the post's own text and group |
| `Forms.InitialFormRoundTrip` | posts/views.py:81-83 | for a post whose text is non-empty and already stripped and whose group exists (as every post saved through the form is), submitting the edit form unchanged is valid and gives back the post's text and group |
| `Views.Index` | posts/views.py:11-17 | the index shows every post, newest first, ten per page, on the resolved page number |
| `Views.GroupPosts` | posts/views.py:20-27 | an unknown slug gives 404; otherwise the page shows exactly that group's posts, newest first, ten per page; a duplicated slug, impossible in a consistent store, fails the lookup |
| `Views.NewPost` | posts/views.py:30-42 | an anonymous user is redirected to log in; a valid POST adds one post (author = requester, pub_date = now, image empty) under the next key and redirects to the index; any other request renders the form and changes nothing |
| `Views.Profile` | posts/views.py:45-55 | an unknown user gives 404; otherwise the page shows exactly that user's posts, newest first, five per page, with `posts_count` equal to their number |
| `Views.PostsCount` | posts/views.py:49 | a user's post count never exceeds the number of posts, and it is zero exactly when no post is theirs |
| `Views.IsAuthor` | posts/views.py:72 | the author check never admits an anonymous requester, and in a consistent store only a registered user passes it |
| `Views.PostsCountIsFeedLength` | posts/views.py:49-50 | the number of a user's posts equals the length of their ordered post list |
| `Views.PostView` | posts/views.py:58-67 | the post page is rendered iff the user and the post exist and the user wrote the post; otherwise it redirects to that user's profile, or the lookup fails |
| `Views.PostEdit` | posts/views.py:69-84 | a missing post gives 404; a non-author is redirected to the post with the store unchanged; the author's valid POST changes only that post's text and group (author, pub_date, image and every other post kept) and redirects to the post |
| `Views.PostConfirm` | posts/views.py:87-92 | a missing post gives 404; the confirmation page is shown iff the requester is the author; anyone else is redirected to the post |
| `Views.PostDelete` | posts/views.py:95-102 | a missing post gives 404; the author's request removes exactly that post, keeps the rest and redirects to the profile; anyone else is redirected to the post with the store unchanged |
| `Site.Handle` | posts/views.py:11-102 | no request changes users or groups, and every post other than the one the request targets keeps its key and its contents; the index, group, profile, post and confirm views leave the store exactly as it was; only a new post advances the post sequence, by one |
| `Site.HandlePreservesValid` | posts/models.py:20-28 | every request keeps the store consistent: unique groups, authors and groups of posts exist |
| `Site.NewPostPreservesValid` | posts/views.py:36-38 | a created post refers to an existing author and, if any, an existing group |
| `Site.PostEditPreservesValid` | posts/views.py:75-79 | an edited post still refers to an existing author and group |
| `Site.PostDeletePreservesValid` | posts/views.py:98-101 | deleting a post keeps the store consistent |
| `Site.MutationsRedirect` | posts/views.py:36-39 | a request that changes the store is always answered with a redirect |
| `Site.ConfirmIffDeletes` | posts/views.py:87-102 | the deletion prompt is shown exactly to the requesters whose deletion request would remove the post |
| `Site.NewPostAddsExactlyOne` | posts/views.py:36-39 | in a consistent store a valid submission adds one post under a fresh key: the count grows by one and every existing post is unchanged |
| `Site.DateAndAuthorFixed` | posts/models.py:25-26 | in a consistent store (one whose foreign keys resolve and whose keys lie below the sequences), no request changes the `pub_date` or the author of a post that still exists |
| `Site.EditKeepsRows` | posts/views.py:75-79 | an edit keeps the set of posts, every date and every author |
| `Site.EditKeepsFeedAnswers` | posts/views.py:75-80 | after an edit, a list is a correct newest-first index or author feed iff it was one before, ties included |
| `Site.EditKeepsFeeds` | posts/views.py:75-80 | when no two posts share a timestamp, so that the order is determined, the index and the author's feed after an edit are the same lists as before |
| `Scenarios.NewestHeadsFeed` | posts/views.py:13 | a post newer than every other post in scope heads the feed |
| `Scenarios.NewPostShownEverywhere` | tests/tests.py:77-86 | a new post, newer than all others, is first on the index and first on its author's profile; its post page renders it, and `str(post)` is the submitted text, stripped |
| `Scenarios.EditShownOnPostPage` | tests/tests.py:104-106 | after the author edits a post, `str(post)` is the new text and the post page still renders it |
| `Scenarios.EditKeepsIndex` | tests/tests.py:98-100 | when no two posts share a timestamp, the index response after an edit is the one before, so the new text shows in the same place |
| `Scenarios.EditKeepsProfile` | tests/tests.py:101-103 | when no two posts share a timestamp, the author's profile response after an edit, post count included, is the one before |
| `Validators.ValidateFileSize` | posts/validators.py:4-12 | a file is rejected with the size message iff its size exceeds 5242880 bytes; otherwise it is returned unchanged |
| `Validators.BoundaryInclusive` | posts/validators.py:7 | exactly 5242880 bytes is accepted and 5242881 is rejected |
| `Validators.AcceptanceMonotone` | posts/validators.py:7 | a file no larger than an accepted one is accepted; one no smaller than a rejected one is rejected |
| `Validators.OnlySizeMatters` | posts/validators.py:6 | two files of equal size get the same verdict |
| `Signup.Body` | users/views.py:21-27 | the body is the last name, a space, the first name, then ", благодарим …" if either name is truthy or "Благодарим …" if neither is; `None` renders as "None" |
| `Signup.BodyEndsWithClosing` | users/views.py:27 | every body ends with " за регистрацию на нашем сайте!" |
| `Signup.CommaIffSomeName` | users/views.py:21-24 | a comma follows the names iff at least one name is truthy |
| `Signup.SendEmail` | users/views.py:25-31 | exactly one message is appended to the outbox, with the fixed subject and sender, the composed body, and `[email]` as the only recipient |
| `Signup.FormValid` | users/views.py:13-18 | the confirmation is built from the cleaned e-mail, first name and last name, passed on unchanged; the user is then saved and the response redirects to login |
| `Signup.RegistrationMailExample` | tests/tests.py:16-26 | for first name "first_name" and last name "last_name", the outbox holds the one message whose subject, body, sender and recipient the test expects |
| `Signup.AnonymousMailExample` | users/views.py:21-22 | with neither name truthy the capitalised greeting directly follows the rendered names: " NoneБлагодарим за регистрацию на нашем сайте!" |

## Left out

- Site.EditKeepsFeeds: states equal lists only when no two posts share a `pub_date`, because `order_by("-pub_date")` has no tie-breaker and a database may order tied rows differently after an update. With ties, `Site.EditKeepsFeedAnswers` states that the set of correct orders is unchanged.
- Scenarios.EditKeepsIndex: equal responses only when no two posts share a `pub_date`, for the same reason.
- Scenarios.EditKeepsProfile: equal responses only when no two posts share a `pub_date`, for the same reason.
- Comments, follow relations, the follow feed and the page cache are not part of this code and are not modelled.
- Template rendering: a rendered page is its context, not HTML.
- URL routing, admin, flatpages, captcha, static and media serving, and settings are configuration of external libraries. The login redirect is an abstract `LoginUrl`.
- Authentication and sessions: the requester is a parameter. A signed-in requester is assumed to have a user row (`Site.Authenticated`).
- `timezone.now()` behind `auto_now_add` is the parameter `now`. No ordering between successive requests' clocks is assumed.
- The page parameter is parsed to `Option<int>` before the paginator sees it. Float-like strings and other text are not modelled separately.
- Form internals: the null-character validator of text fields, string parsing of the group choice, and all error messages.
- Database column limits: the `max_length=200` of `Group.title` and the slug character set.
- Image files: `Post.image` is not a form field, so the views never set it. New posts get the empty name. File storage and decoding are not modelled.
- Users are identified by username alone. E-mail, names and passwords are not stored in the model.
- SMTP delivery: the outbox is a list of messages. `fail_silently` is not modelled.
- The `CreationForm` of registration is not part of this model. Its cleaned data are given.
- `yatube/posts/views.py` is an older copy with empty bodies and is not modelled.
- Views.NewPost: its own contract says the new post is stored under `nextPostId`. That this key is fresh, and that the post count grows by exactly one, holds only in a consistent store, and is stated separately by `Site.NewPostAddsExactlyOne`.
