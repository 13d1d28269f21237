/**
  Entities of the posts app and the in-memory store that holds them.

  Timestamps are not wall-clock values: the store carries a counter `clock`
  that every created record takes both as its id and as its creation time,
  after which the counter advances. Posts are kept newest first, which is the
  order every post listing uses.
 */
module Models {

  type UserId = nat
  type GroupId = nat
  type PostId = nat

  datatype Option<T> = None | Some(value: T)

  /** A registered account, as far as the posts app looks at it. */
  datatype User = User(id: UserId, username: string)

  datatype Group = Group(id: GroupId, title: string, slug: string, description: string)

  /** A post: the group and the image are both optional. */
  datatype Post = Post(
    id: PostId,
    text: string,
    pubDate: nat,
    author: UserId,
    group: Option<GroupId>,
    image: Option<string>)

  datatype Comment = Comment(id: nat, post: PostId, author: UserId, text: string, created: nat)

  /** One subscription row: `user` follows `author`. The table itself has no
      uniqueness and no self-follow constraint. */
  datatype Follow = Follow(id: nat, user: UserId, author: UserId, created: nat)

  datatype Store = Store(
    users: seq<User>,
    groups: seq<Group>,
    posts: seq<Post>,
    comments: seq<Comment>,
    follows: seq<Follow>,
    clock: nat)

  /** The person behind a request; `None` is the anonymous visitor. */
  type Viewer = Option<User>

  /** `str(group)`: the title, shown wherever a group is displayed. */
  function GroupStr(g: Group): (r: string)
    ensures r == g.title
  {
    g.title
  }

  /** `str(post)`: the whole text, with no truncation. */
  function PostStr(p: Post): (r: string)
    ensures r == p.text
  {
    p.text
  }

  // ---------------------------------------------------------------------
  // Lookups by the unique keys the views resolve (`get_object_or_404`)
  // ---------------------------------------------------------------------

  function FindUser(users: seq<User>, username: string): (r: Option<User>)
    ensures r.Some? ==> r.value in users && r.value.username == username
    ensures r.None? ==> forall u :: u in users ==> u.username != username
  {
    if |users| == 0 then None
    else if users[0].username == username then Some(users[0])
    else FindUser(users[1..], username)
  }

  function FindGroup(groups: seq<Group>, slug: string): (r: Option<Group>)
    ensures r.Some? ==> r.value in groups && r.value.slug == slug
    ensures r.None? ==> forall g :: g in groups ==> g.slug != slug
  {
    if |groups| == 0 then None
    else if groups[0].slug == slug then Some(groups[0])
    else FindGroup(groups[1..], slug)
  }

  function FindPost(posts: seq<Post>, id: PostId): (r: Option<Post>)
    ensures r.Some? ==> r.value in posts && r.value.id == id
    ensures r.None? ==> forall p :: p in posts ==> p.id != id
  {
    if |posts| == 0 then None
    else if posts[0].id == id then Some(posts[0])
    else FindPost(posts[1..], id)
  }

  // ---------------------------------------------------------------------
  // Key sets
  // ---------------------------------------------------------------------

  function UserIds(users: seq<User>): set<UserId>
  {
    set u | u in users :: u.id
  }

  function GroupIds(groups: seq<Group>): set<GroupId>
  {
    set g | g in groups :: g.id
  }

  function PostIds(posts: seq<Post>): set<PostId>
  {
    set p | p in posts :: p.id
  }

  // ---------------------------------------------------------------------
  // Store invariant
  // ---------------------------------------------------------------------

  /** Listing order: strictly newest first by publication time. */
  ghost predicate NewestFirst(posts: seq<Post>)
  {
    forall i, j :: 0 <= i < j < |posts| ==> posts[i].pubDate > posts[j].pubDate
  }

  /** User ids and usernames are unique. */
  ghost predicate UsersValid(users: seq<User>)
  {
    forall i, j :: 0 <= i < j < |users| ==>
      users[i].id != users[j].id && users[i].username != users[j].username
  }

  /** Group ids are unique and so are slugs. */
  ghost predicate GroupsValid(groups: seq<Group>)
  {
    forall i, j :: 0 <= i < j < |groups| ==>
      groups[i].id != groups[j].id && groups[i].slug != groups[j].slug
  }

  /** A post's group is absent or refers to an existing group. */
  ghost predicate GroupRef(groups: seq<Group>, g: Option<GroupId>)
  {
    g.Some? ==> g.value in GroupIds(groups)
  }

  ghost predicate PostsValid(s: Store)
  {
    && NewestFirst(s.posts)
    && (forall i, j :: 0 <= i < j < |s.posts| ==> s.posts[i].id != s.posts[j].id)
    && (forall p :: p in s.posts ==>
          && p.id < s.clock
          && p.pubDate < s.clock
          && p.author in UserIds(s.users)
          && GroupRef(s.groups, p.group))
  }

  ghost predicate CommentsValid(s: Store)
  {
    && (forall i, j :: 0 <= i < j < |s.comments| ==> s.comments[i].id != s.comments[j].id)
    && (forall c :: c in s.comments ==>
          && c.id < s.clock
          && c.post in PostIds(s.posts)
          && c.author in UserIds(s.users))
  }

  /** The follow relation has no self pair and no pair twice. The table does
      not enforce this; the follow views maintain it. */
  ghost predicate FollowPairsValid(follows: seq<Follow>)
  {
    && (forall f :: f in follows ==> f.user != f.author)
    && (forall i, j :: 0 <= i < j < |follows| ==>
          !(follows[i].user == follows[j].user && follows[i].author == follows[j].author))
  }

  ghost predicate FollowsValid(s: Store)
  {
    && FollowPairsValid(s.follows)
    && (forall i, j :: 0 <= i < j < |s.follows| ==> s.follows[i].id != s.follows[j].id)
    && (forall f :: f in s.follows ==>
          && f.id < s.clock
          && f.user in UserIds(s.users)
          && f.author in UserIds(s.users))
  }

  ghost predicate Valid(s: Store)
  {
    && UsersValid(s.users)
    && GroupsValid(s.groups)
    && PostsValid(s)
    && CommentsValid(s)
    && FollowsValid(s)
  }

  /** A signed-in viewer is one of the store's users. */
  ghost predicate ViewerValid(s: Store, viewer: Viewer)
  {
    viewer.Some? ==> viewer.value in s.users
  }

  /** Under unique usernames the lookup finds the one user with that name. */
  lemma {:induction false} FindUserUnique(users: seq<User>, u: User)
    requires UsersValid(users)
    requires u in users
    ensures FindUser(users, u.username) == Some(u)
    decreases |users|
  {
    if users[0] != u {
      assert users[0].username != u.username by {
        var k :| 0 <= k < |users| && users[k] == u;
        assert k > 0;
      }
      assert u in users[1..];
      assert UsersValid(users[1..]) by {
        forall i, j | 0 <= i < j < |users[1..]|
          ensures users[1..][i].id != users[1..][j].id && users[1..][i].username != users[1..][j].username
        {
          assert users[1..][i] == users[i + 1] && users[1..][j] == users[j + 1];
        }
      }
      FindUserUnique(users[1..], u);
    }
  }

  /** Under unique slugs the lookup finds the one group with that slug. */
  lemma {:induction false} FindGroupUnique(groups: seq<Group>, g: Group)
    requires GroupsValid(groups)
    requires g in groups
    ensures FindGroup(groups, g.slug) == Some(g)
    decreases |groups|
  {
    if groups[0] != g {
      assert groups[0].slug != g.slug by {
        var k :| 0 <= k < |groups| && groups[k] == g;
        assert k > 0;
      }
      assert g in groups[1..];
      assert GroupsValid(groups[1..]) by {
        forall i, j | 0 <= i < j < |groups[1..]|
          ensures groups[1..][i].id != groups[1..][j].id && groups[1..][i].slug != groups[1..][j].slug
        {
          assert groups[1..][i] == groups[i + 1] && groups[1..][j] == groups[j + 1];
        }
      }
      FindGroupUnique(groups[1..], g);
    }
  }
}
