/**
  The posts app's views as pure transitions: each takes the store, the
  viewer (`None` for an anonymous visitor) and the request arguments, and
  returns the new store with what the response does.

  Listing screens carry the whole ordered listing; the page shown for page
  number n is `Paginator.Page(listing, n)`. A form's validity is an input:
  the form validation itself is not modelled.
 */
module Views {
  import opened Models
  import Feeds
  import Follows
  import Seqs

  /** What a rendered page shows. */
  datatype Screen =
    | Listing(posts: seq<Post>)
    | GroupListing(group: Group, posts: seq<Post>)
    | ProfileListing(author: User, posts: seq<Post>, following: bool)
    | Detail(post: Post, comments: seq<Comment>)
    | PostEditor(isEdit: bool)

  datatype Outcome =
    | Render(screen: Screen)
    | RedirectProfile(username: string)
    | RedirectDetail(postId: PostId)
    | NotFound
    | LoginRedirect

  datatype Response = Response(store: Store, outcome: Outcome)

  /** A submitted post form: text, optional group, optional uploaded image. */
  datatype PostForm = PostForm(valid: bool, text: string, group: Option<GroupId>, image: Option<string>)

  datatype CommentForm = CommentForm(valid: bool, text: string)

  // ---------------------------------------------------------------------
  // Read-only views
  // ---------------------------------------------------------------------

  /** Start page: every post. */
  function Index(s: Store, viewer: Viewer): (r: Response)
    ensures r.store == s
    ensures r.outcome == Render(Listing(s.posts))
  {
    Feeds.SelectAll(s.posts);
    Response(s, Render(Listing(Feeds.Select(s.posts, Feeds.AllPosts))))
  }

  /** A group's page: 404 for an unknown slug, otherwise the group's posts. */
  function GroupPosts(s: Store, viewer: Viewer, slug: string): (r: Response)
    ensures r.store == s
    ensures r.outcome == NotFound <==> forall g :: g in s.groups ==> g.slug != slug
    ensures r.outcome != NotFound ==>
              && r.outcome.Render? && r.outcome.screen.GroupListing?
              && r.outcome.screen.group in s.groups
              && r.outcome.screen.group.slug == slug
              && forall p :: p in r.outcome.screen.posts <==>
                   p in s.posts && p.group == Some(r.outcome.screen.group.id)
  {
    match FindGroup(s.groups, slug)
    case None => Response(s, NotFound)
    case Some(g) => Response(s, Render(GroupListing(g, Feeds.Select(s.posts, Feeds.InGroup(g.id)))))
  }

  /** A profile page: 404 for an unknown username, otherwise the author's
      posts and whether the viewer follows the author. The flag is true for
      an anonymous viewer. */
  function Profile(s: Store, viewer: Viewer, username: string): (r: Response)
    ensures r.store == s
    ensures r.outcome == NotFound <==> forall u :: u in s.users ==> u.username != username
    ensures r.outcome != NotFound ==>
              && r.outcome.Render? && r.outcome.screen.ProfileListing?
              && r.outcome.screen.author in s.users
              && r.outcome.screen.author.username == username
              && (forall p :: p in r.outcome.screen.posts <==>
                    p in s.posts && p.author == r.outcome.screen.author.id)
              && (viewer.None? ==> r.outcome.screen.following)
              && (viewer.Some? ==> (r.outcome.screen.following <==>
                    Follows.IsFollowing(s.follows, viewer.value.id, r.outcome.screen.author.id)))
  {
    match FindUser(s.users, username)
    case None => Response(s, NotFound)
    case Some(author) =>
      var following :=
        if viewer.None? then true
        else Follows.IsFollowing(s.follows, viewer.value.id, author.id);
      Response(s, Render(ProfileListing(author, Feeds.Select(s.posts, Feeds.ByAuthor(author.id)), following)))
  }

  /** Comments attached to post `id`. */
  function CommentsOf(comments: seq<Comment>, id: PostId): (r: seq<Comment>)
    ensures forall c :: c in r <==> c in comments && c.post == id
  {
    Seqs.Filter(comments, (c: Comment) => c.post == id)
  }

  /** A post's page: 404 for an unknown id, otherwise the post and its
      comments. */
  function PostDetail(s: Store, viewer: Viewer, postId: PostId): (r: Response)
    ensures r.store == s
    ensures r.outcome == NotFound <==> forall p :: p in s.posts ==> p.id != postId
    ensures r.outcome != NotFound ==>
              && r.outcome.Render? && r.outcome.screen.Detail?
              && r.outcome.screen.post in s.posts
              && r.outcome.screen.post.id == postId
              && forall c :: c in r.outcome.screen.comments <==> c in s.comments && c.post == postId
  {
    match FindPost(s.posts, postId)
    case None => Response(s, NotFound)
    case Some(p) => Response(s, Render(Detail(p, CommentsOf(s.comments, postId))))
  }

  /** Posts by the authors the viewer follows; sign-in required. */
  function FollowIndex(s: Store, viewer: Viewer): (r: Response)
    ensures r.store == s
    ensures viewer.None? <==> r.outcome == LoginRedirect
    ensures viewer.Some? ==>
              && r.outcome.Render? && r.outcome.screen.Listing?
              && forall p :: p in r.outcome.screen.posts <==>
                   p in s.posts && Follows.IsFollowing(s.follows, viewer.value.id, p.author)
  {
    match viewer
    case None => Response(s, LoginRedirect)
    case Some(u) =>
      Response(s, Render(Listing(Feeds.Select(s.posts, Feeds.ByAuthors(Follows.Followees(s.follows, u.id))))))
  }

  // ---------------------------------------------------------------------
  // Posts and comments
  // ---------------------------------------------------------------------

  /** A new post by the viewer, stamped with the store's clock. */
  function NewPost(s: Store, author: User, form: PostForm): Post
  {
    Post(s.clock, form.text, s.clock, author.id, form.group, form.image)
  }

  /** Create a post. Anonymous viewers are sent to log in; an invalid form is
      shown again; a valid one adds one post, authored by the viewer, at the
      head of the listing, and redirects to the author's profile. */
  function PostCreate(s: Store, viewer: Viewer, form: PostForm): (r: Response)
    ensures viewer.None? ==> r == Response(s, LoginRedirect)
    ensures viewer.Some? && !form.valid ==> r == Response(s, Render(PostEditor(false)))
    ensures viewer.Some? && form.valid ==>
              && r.outcome == RedirectProfile(viewer.value.username)
              && |r.store.posts| == |s.posts| + 1
              && r.store.posts[1..] == s.posts
              && r.store.posts[0].author == viewer.value.id
              && r.store.posts[0].text == form.text
              && r.store.posts[0].group == form.group
              && r.store.posts[0].image == form.image
              && r.store.posts[0].pubDate == s.clock
              && r.store.clock == s.clock + 1
              && r.store.(posts := s.posts, clock := s.clock) == s
  {
    match viewer
    case None => Response(s, LoginRedirect)
    case Some(u) =>
      if !form.valid then Response(s, Render(PostEditor(false)))
      else
        Response(s.(posts := [NewPost(s, u, form)] + s.posts, clock := s.clock + 1),
                 RedirectProfile(u.username))
  }

  /** The post `p` as edited through `form`: text and group are replaced, and
      the image only when a new one was uploaded. */
  function Edited(p: Post, form: PostForm): Post
  {
    p.(text := form.text, group := form.group, image := if form.image.Some? then form.image else p.image)
  }

  /** The listing with post `id` replaced by its edited version, in place. */
  function ReplacePost(posts: seq<Post>, id: PostId, form: PostForm): (r: seq<Post>)
    ensures |r| == |posts|
    ensures forall i :: 0 <= i < |r| ==>
              && r[i].id == posts[i].id
              && r[i].pubDate == posts[i].pubDate
              && r[i].author == posts[i].author
    ensures forall i :: 0 <= i < |r| && posts[i].id != id ==> r[i] == posts[i]
    ensures forall i :: 0 <= i < |r| && posts[i].id == id ==>
              && r[i].text == form.text && r[i].group == form.group
              && r[i].image == (if form.image.Some? then form.image else posts[i].image)
  {
    seq(|posts|, i requires 0 <= i < |posts| =>
      if posts[i].id == id then Edited(posts[i], form) else posts[i])
  }

  /** Edit a post. Anonymous viewers are sent to log in, an unknown id is a
      404, anyone but the author is sent to the post's page with nothing
      changed, an invalid form is shown again, and a valid form from the
      author updates the post in place. */
  function PostEdit(s: Store, viewer: Viewer, postId: PostId, form: PostForm): (r: Response)
    ensures viewer.None? ==> r == Response(s, LoginRedirect)
    ensures viewer.Some? && (forall p :: p in s.posts ==> p.id != postId) ==> r == Response(s, NotFound)
    ensures (viewer.Some? && FindPost(s.posts, postId).Some?
             && FindPost(s.posts, postId).value.author != viewer.value.id)
              ==> r == Response(s, RedirectDetail(postId))
    ensures r.store != s ==>
              && viewer.Some? && form.valid
              && r.outcome == RedirectDetail(postId)
              && FindPost(s.posts, postId).Some?
              && FindPost(s.posts, postId).value.author == viewer.value.id
    ensures r.store.(posts := s.posts) == s
    ensures |r.store.posts| == |s.posts|
    ensures (viewer.Some? && form.valid && FindPost(s.posts, postId).Some?
             && FindPost(s.posts, postId).value.author == viewer.value.id)
              ==> && r.outcome == RedirectDetail(postId)
                  && r.store.posts == ReplacePost(s.posts, postId, form)
    ensures (viewer.Some? && !form.valid && FindPost(s.posts, postId).Some?
             && FindPost(s.posts, postId).value.author == viewer.value.id)
              ==> r == Response(s, Render(PostEditor(true)))
  {
    match viewer
    case None => Response(s, LoginRedirect)
    case Some(u) =>
      match FindPost(s.posts, postId)
      case None => Response(s, NotFound)
      case Some(p) =>
        if p.author != u.id then Response(s, RedirectDetail(postId))
        else if !form.valid then Response(s, Render(PostEditor(true)))
        else Response(s.(posts := ReplacePost(s.posts, postId, form)), RedirectDetail(postId))
  }

  /** Add a comment. Anonymous viewers are sent to log in and an unknown post
      is a 404; otherwise the viewer goes back to the post's page, and a
      valid form first appends one comment by the viewer on that post. */
  function AddComment(s: Store, viewer: Viewer, postId: PostId, form: CommentForm): (r: Response)
    ensures viewer.None? ==> r == Response(s, LoginRedirect)
    ensures viewer.Some? && (forall p :: p in s.posts ==> p.id != postId) ==> r == Response(s, NotFound)
    ensures viewer.Some? && (exists p :: p in s.posts && p.id == postId) ==>
              && r.outcome == RedirectDetail(postId)
              && (!form.valid ==> r.store == s)
              && (form.valid ==>
                    && |r.store.comments| == |s.comments| + 1
                    && r.store.comments[..|s.comments|] == s.comments
                    && r.store.comments[|s.comments|].post == postId
                    && r.store.comments[|s.comments|].author == viewer.value.id
                    && r.store.comments[|s.comments|].text == form.text
                    && r.store.clock == s.clock + 1
                    && r.store.(comments := s.comments, clock := s.clock) == s)
  {
    match viewer
    case None => Response(s, LoginRedirect)
    case Some(u) =>
      match FindPost(s.posts, postId)
      case None => Response(s, NotFound)
      case Some(p) =>
        if !form.valid then Response(s, RedirectDetail(postId))
        else
          var c := Comment(s.clock, postId, u.id, form.text, s.clock);
          Response(s.(comments := s.comments + [c], clock := s.clock + 1), RedirectDetail(postId))
  }

  // ---------------------------------------------------------------------
  // Following
  // ---------------------------------------------------------------------

  /** Follow the author called `username`. Following oneself changes
      nothing; otherwise a row for the pair exists afterwards, and a new row
      is created only if there was none. */
  function ProfileFollow(s: Store, viewer: Viewer, username: string): (r: Response)
    ensures viewer.None? ==> r == Response(s, LoginRedirect)
    ensures viewer.Some? && (forall u :: u in s.users ==> u.username != username) ==> r == Response(s, NotFound)
    ensures viewer.Some? && (exists u :: u in s.users && u.username == username) ==>
              r.outcome == RedirectProfile(username)
    ensures (viewer.Some? && FindUser(s.users, username).Some?
             && FindUser(s.users, username).value.id == viewer.value.id)
              ==> r.store == s
    ensures r.store.(follows := s.follows, clock := s.clock) == s
    ensures r.store.follows != s.follows ==>
              && viewer.Some?
              && r.outcome == RedirectProfile(username)
              && FindUser(s.users, username).Some?
              && var a := FindUser(s.users, username).value;
                 && a.id != viewer.value.id
                 && !Follows.IsFollowing(s.follows, viewer.value.id, a.id)
                 && r.store.follows == s.follows + [Follow(s.clock, viewer.value.id, a.id, s.clock)]
    ensures viewer.Some? && FindUser(s.users, username).Some? ==>
              var a := FindUser(s.users, username).value;
              a.id != viewer.value.id ==> Follows.IsFollowing(r.store.follows, viewer.value.id, a.id)
  {
    match viewer
    case None => Response(s, LoginRedirect)
    case Some(u) =>
      match FindUser(s.users, username)
      case None => Response(s, NotFound)
      case Some(author) =>
        if u.id == author.id then Response(s, RedirectProfile(username))
        else if Follows.IsFollowing(s.follows, u.id, author.id) then Response(s, RedirectProfile(username))
        else
          Response(s.(follows := Follows.GetOrCreate(s.follows, u.id, author.id, s.clock, s.clock),
                      clock := s.clock + 1),
                   RedirectProfile(username))
  }

  /** Unfollow the author called `username`: every row for the pair goes,
      no other row is touched, and a pair that was not followed is not an
      error. */
  function ProfileUnfollow(s: Store, viewer: Viewer, username: string): (r: Response)
    ensures viewer.None? ==> r == Response(s, LoginRedirect)
    ensures viewer.Some? && (forall u :: u in s.users ==> u.username != username) ==> r == Response(s, NotFound)
    ensures r.store.(follows := s.follows) == s
    ensures viewer.Some? && FindUser(s.users, username).Some? ==>
              var a := FindUser(s.users, username).value;
              && r.outcome == RedirectProfile(username)
              && !Follows.IsFollowing(r.store.follows, viewer.value.id, a.id)
              && (forall f :: f in r.store.follows <==>
                    f in s.follows && !(f.user == viewer.value.id && f.author == a.id))
  {
    match viewer
    case None => Response(s, LoginRedirect)
    case Some(u) =>
      match FindUser(s.users, username)
      case None => Response(s, NotFound)
      case Some(author) =>
        Response(s.(follows := Follows.DeletePair(s.follows, u.id, author.id)), RedirectProfile(username))
  }
}
