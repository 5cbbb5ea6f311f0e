/** The entities of the blog (posts/models.py) and the store that holds them:
    users, groups and posts, with the database-level rules the model classes
    declare (unique group slug and title, foreign keys, cascade on delete). */
module Models {
  import opened Wrappers

  /** A user is identified by its username, which the auth user table keeps unique. */
  type Username = string
  type GroupId = nat
  type PostId = nat
  /** An abstract instant; only its order matters. */
  type Timestamp = int

  /** A community a post may be filed under. */
  datatype Group = Group(title: string, slug: string, description: string)

  /** A post. `group` is the nullable foreign key; `image` is the stored file
      name, empty when no image was uploaded. */
  datatype Post = Post(text: string, pubDate: Timestamp, author: Username, group: Option<GroupId>, image: string)

  /** The database: the user table, the group and post tables keyed by primary
      key, and the next value of each autoincrement sequence. */
  datatype Store = Store(
    users: set<Username>,
    groups: map<GroupId, Group>,
    posts: map<PostId, Post>,
    nextGroupId: GroupId,
    nextPostId: PostId)

  /** `Group.__str__`. */
  function GroupStr(g: Group): (r: string)
    ensures r == g.title
  {
    g.title
  }

  /** `Post.__str__`. */
  function PostStr(p: Post): (r: string)
    ensures r == p.text
  {
    p.text
  }

  /** No two groups share a slug, and no two share a title. */
  predicate UniqueGroups(groups: map<GroupId, Group>)
  {
    forall g1, g2 :: g1 in groups && g2 in groups && g1 != g2 ==>
      groups[g1].slug != groups[g2].slug && groups[g1].title != groups[g2].title
  }

  /** The foreign keys of a post point at existing rows. */
  predicate Linked(s: Store, p: Post)
  {
    p.author in s.users && (p.group.Some? ==> p.group.value in s.groups)
  }

  /** What the database guarantees of every reachable state. */
  predicate Valid(s: Store)
  {
    && 1 <= s.nextGroupId && 1 <= s.nextPostId
    && UniqueGroups(s.groups)
    && (forall g :: g in s.groups ==> 1 <= g < s.nextGroupId)
    && (forall id :: id in s.posts ==> 1 <= id < s.nextPostId && Linked(s, s.posts[id]))
  }

  /** A fresh database: no rows, sequences starting at 1. */
  function EmptyStore(): (s: Store)
    ensures Valid(s)
    ensures s.users == {} && s.groups == map[] && s.posts == map[]
  {
    Store({}, map[], map[], 1, 1)
  }

  /** The unique constraints on `Group.title` and `Group.slug` reject an insert. */
  datatype IntegrityError = IntegrityError

  /** Inserts a group row; the insert fails when the title or the slug is taken. */
  function AddGroup(s: Store, title: string, slug: string, description: string): (r: Result<Store, IntegrityError>)
    ensures r.Err? <==> exists g :: g in s.groups && (s.groups[g].title == title || s.groups[g].slug == slug)
    ensures r.Ok? ==> s.nextGroupId !in s.groups ==>
      && r.value.groups.Keys == s.groups.Keys + {s.nextGroupId}
      && r.value.groups[s.nextGroupId] == Group(title, slug, description)
      && (forall g :: g in s.groups ==> r.value.groups[g] == s.groups[g])
    ensures r.Ok? ==> r.value.nextGroupId == s.nextGroupId + 1
    ensures r.Ok? ==> r.value.(groups := s.groups, nextGroupId := s.nextGroupId) == s
  {
    if exists g :: g in s.groups && (s.groups[g].title == title || s.groups[g].slug == slug) then
      Err(IntegrityError)
    else
      Ok(s.(groups := s.groups[s.nextGroupId := Group(title, slug, description)],
            nextGroupId := s.nextGroupId + 1))
  }

  /** Inserts a user row (registration). */
  function AddUser(s: Store, u: Username): (r: Store)
    ensures u in r.users && s.users <= r.users && r.users - s.users <= {u}
    ensures r.(users := s.users) == s
  {
    s.(users := s.users + {u})
  }

  /** Deletes a user; `on_delete=CASCADE` on `Post.author` deletes their posts. */
  function DeleteUser(s: Store, u: Username): (r: Store)
    ensures r.users == s.users - {u}
    ensures forall id :: id in r.posts <==> id in s.posts && s.posts[id].author != u
    ensures forall id :: id in r.posts ==> r.posts[id] == s.posts[id]
    ensures r.(users := s.users, posts := s.posts) == s
  {
    s.(users := s.users - {u},
       posts := map id | id in s.posts && s.posts[id].author != u :: s.posts[id])
  }

  /** Deletes a group; `on_delete=CASCADE` on `Post.group` deletes its posts. */
  function DeleteGroup(s: Store, g: GroupId): (r: Store)
    ensures r.groups.Keys == s.groups.Keys - {g}
    ensures forall id :: id in r.posts <==> id in s.posts && s.posts[id].group != Some(g)
    ensures forall id :: id in r.posts ==> r.posts[id] == s.posts[id]
    ensures forall h :: h in r.groups ==> r.groups[h] == s.groups[h]
    ensures r.(groups := s.groups, posts := s.posts) == s
  {
    s.(groups := map h | h in s.groups && h != g :: s.groups[h],
       posts := map id | id in s.posts && s.posts[id].group != Some(g) :: s.posts[id])
  }

  /** In a valid store `str(group)` names one group: titles are unique. */
  lemma GroupStrIdentifies(s: Store, g1: GroupId, g2: GroupId)
    requires Valid(s)
    requires g1 in s.groups && g2 in s.groups
    ensures GroupStr(s.groups[g1]) == GroupStr(s.groups[g2]) <==> g1 == g2
  {
  }

  lemma AddGroupPreservesValid(s: Store, title: string, slug: string, description: string)
    requires Valid(s)
    ensures AddGroup(s, title, slug, description).Ok? ==> Valid(AddGroup(s, title, slug, description).value)
  {
    var r := AddGroup(s, title, slug, description);
    if r.Ok? {
      var t := r.value;
      forall g | g in t.groups ensures 1 <= g < t.nextGroupId {
        assert g == s.nextGroupId || g in s.groups;
      }
    }
  }

  /** In a consistent store a successful insert adds exactly one group,
      under a fresh key, and keeps every existing group. */
  lemma AddGroupAddsExactlyOne(s: Store, title: string, slug: string, description: string)
    requires Valid(s)
    requires AddGroup(s, title, slug, description).Ok?
    ensures s.nextGroupId !in s.groups
    ensures |AddGroup(s, title, slug, description).value.groups| == |s.groups| + 1
    ensures AddGroup(s, title, slug, description).value.groups[s.nextGroupId] == Group(title, slug, description)
    ensures forall g :: g in s.groups ==> AddGroup(s, title, slug, description).value.groups[g] == s.groups[g]
  {
    var t := AddGroup(s, title, slug, description).value;
    assert t.groups.Keys == s.groups.Keys + {s.nextGroupId};
  }

  lemma AddUserPreservesValid(s: Store, u: Username)
    requires Valid(s)
    ensures Valid(AddUser(s, u))
  {
  }

  /** Cascading delete leaves no post pointing at the removed user. */
  lemma DeleteUserPreservesValid(s: Store, u: Username)
    requires Valid(s)
    ensures Valid(DeleteUser(s, u))
  {
  }

  /** Cascading delete leaves no post pointing at the removed group. */
  lemma DeleteGroupPreservesValid(s: Store, g: GroupId)
    requires Valid(s)
    ensures Valid(DeleteGroup(s, g))
  {
  }
}
