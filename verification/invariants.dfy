/**
  Properties of the views over a well-formed store: every transition keeps
  the store invariant (in particular the follow relation stays free of self
  pairs and repeated pairs), follow and unfollow behave as a two-state
  toggle per pair, and each listing is the one newest-first sequence of the
  posts it selects.
 */
module Invariants {
  import opened Models
  import opened Views
  import Feeds
  import Follows
  import Paginator
  import Seqs

  // ---------------------------------------------------------------------
  // The store invariant is preserved
  // ---------------------------------------------------------------------

  /** What a valid post form guarantees: its group choice exists. */
  ghost predicate FormGroupValid(s: Store, form: PostForm)
  {
    form.valid ==> GroupRef(s.groups, form.group)
  }

  // Parts of the invariant that survive when a table is untouched and the
  // keys it refers to only grow.

  lemma PostsValidWiden(s: Store, r: Store)
    requires PostsValid(s)
    requires r.posts == s.posts && s.clock <= r.clock
    requires UserIds(s.users) <= UserIds(r.users) && GroupIds(s.groups) <= GroupIds(r.groups)
    ensures PostsValid(r)
  {
  }

  lemma CommentsValidWiden(s: Store, r: Store)
    requires CommentsValid(s)
    requires r.comments == s.comments && s.clock <= r.clock
    requires PostIds(s.posts) <= PostIds(r.posts) && UserIds(s.users) <= UserIds(r.users)
    ensures CommentsValid(r)
  {
  }

  lemma FollowsValidWiden(s: Store, r: Store)
    requires FollowsValid(s)
    requires r.follows == s.follows && s.clock <= r.clock
    requires UserIds(s.users) <= UserIds(r.users)
    ensures FollowsValid(r)
  {
  }

  /** Putting a post stamped with the clock at the head of the table keeps
      the post part of the invariant. */
  lemma PrependPostKeepsPostsValid(s: Store, np: Post)
    requires PostsValid(s)
    requires np.id == s.clock && np.pubDate == s.clock
    requires np.author in UserIds(s.users) && GroupRef(s.groups, np.group)
    ensures PostsValid(s.(posts := [np] + s.posts, clock := s.clock + 1))
    ensures PostIds(s.posts) <= PostIds([np] + s.posts)
  {
    var posts := [np] + s.posts;
    forall i, j | 0 <= i < j < |posts|
      ensures posts[i].pubDate > posts[j].pubDate && posts[i].id != posts[j].id
    {
      assert posts[j] == s.posts[j - 1];
      if i > 0 {
        assert posts[i] == s.posts[i - 1];
      } else {
        assert s.posts[j - 1] in s.posts;
      }
    }
    forall id | id in PostIds(s.posts)
      ensures id in PostIds(posts)
    {
      var p :| p in s.posts && p.id == id;
      assert p in posts;
    }
  }

  lemma PostCreateKeepsValid(s: Store, viewer: Viewer, form: PostForm)
    requires Valid(s) && ViewerValid(s, viewer) && FormGroupValid(s, form)
    ensures Valid(PostCreate(s, viewer, form).store)
  {
    if viewer.Some? && form.valid {
      var r := PostCreate(s, viewer, form).store;
      var np := NewPost(s, viewer.value, form);
      assert r == s.(posts := [np] + s.posts, clock := s.clock + 1);
      assert viewer.value.id in UserIds(s.users);
      PrependPostKeepsPostsValid(s, np);
      CommentsValidWiden(s, r);
      FollowsValidWiden(s, r);
    }
  }

  /** Editing one post in place keeps the post part of the invariant and
      the set of post ids. */
  lemma ReplacePostKeepsPostsValid(s: Store, postId: PostId, form: PostForm)
    requires PostsValid(s) && GroupRef(s.groups, form.group)
    ensures PostsValid(s.(posts := ReplacePost(s.posts, postId, form)))
    ensures PostIds(ReplacePost(s.posts, postId, form)) == PostIds(s.posts)
  {
    var posts := ReplacePost(s.posts, postId, form);
    forall id | id in PostIds(s.posts) ensures id in PostIds(posts) {
      var p :| p in s.posts && p.id == id;
      var k :| 0 <= k < |s.posts| && s.posts[k] == p;
      assert posts[k] in posts;
    }
    forall id | id in PostIds(posts) ensures id in PostIds(s.posts) {
      var p :| p in posts && p.id == id;
      var k :| 0 <= k < |posts| && posts[k] == p;
      assert s.posts[k] in s.posts;
    }
    forall p | p in posts
      ensures p.id < s.clock && p.pubDate < s.clock
      ensures p.author in UserIds(s.users) && GroupRef(s.groups, p.group)
    {
      var k :| 0 <= k < |posts| && posts[k] == p;
      assert s.posts[k] in s.posts;
    }
  }

  lemma PostEditKeepsValid(s: Store, viewer: Viewer, postId: PostId, form: PostForm)
    requires Valid(s) && FormGroupValid(s, form)
    ensures Valid(PostEdit(s, viewer, postId, form).store)
  {
    var r := PostEdit(s, viewer, postId, form).store;
    if r != s {
      assert r == s.(posts := ReplacePost(s.posts, postId, form));
      ReplacePostKeepsPostsValid(s, postId, form);
      CommentsValidWiden(s, r);
      FollowsValidWiden(s, r);
    }
  }

  /** Appending a comment stamped with the clock, on an existing post and by
      an existing user, keeps the comment part of the invariant. */
  lemma AppendCommentKeepsCommentsValid(s: Store, c: Comment)
    requires CommentsValid(s)
    requires c.id == s.clock && c.post in PostIds(s.posts) && c.author in UserIds(s.users)
    ensures CommentsValid(s.(comments := s.comments + [c], clock := s.clock + 1))
  {
    var comments := s.comments + [c];
    forall i, j | 0 <= i < j < |comments|
      ensures comments[i].id != comments[j].id
    {
      assert comments[i] == s.comments[i];
      if j < |s.comments| {
        assert comments[j] == s.comments[j];
      } else {
        assert s.comments[i] in s.comments;
      }
    }
    forall x | x in comments
      ensures x.id < s.clock + 1 && x.post in PostIds(s.posts) && x.author in UserIds(s.users)
    {
      var k :| 0 <= k < |comments| && comments[k] == x;
      if k < |s.comments| {
        assert s.comments[k] in s.comments;
      }
    }
  }

  lemma AddCommentKeepsValid(s: Store, viewer: Viewer, postId: PostId, form: CommentForm)
    requires Valid(s) && ViewerValid(s, viewer)
    ensures Valid(AddComment(s, viewer, postId, form).store)
  {
    var r := AddComment(s, viewer, postId, form).store;
    if r != s {
      var p := FindPost(s.posts, postId).value;
      var c := Comment(s.clock, postId, viewer.value.id, form.text, s.clock);
      assert r == s.(comments := s.comments + [c], clock := s.clock + 1);
      assert p in s.posts;
      assert viewer.value.id in UserIds(s.users);
      AppendCommentKeepsCommentsValid(s, c);
      PostsValidWiden(s, r);
      FollowsValidWiden(s, r);
    }
  }

  /** Appending a follow row stamped with the clock, for an unfollowed pair
      of two different existing users, keeps the follow part of the
      invariant. */
  lemma AppendFollowKeepsFollowsValid(s: Store, u: UserId, a: UserId)
    requires FollowsValid(s)
    requires u != a && u in UserIds(s.users) && a in UserIds(s.users)
    requires !Follows.IsFollowing(s.follows, u, a)
    ensures FollowsValid(s.(follows := s.follows + [Follow(s.clock, u, a, s.clock)], clock := s.clock + 1))
  {
    var follows := s.follows + [Follow(s.clock, u, a, s.clock)];
    Follows.GetOrCreateKeepsPairsValid(s.follows, u, a, s.clock, s.clock);
    forall i, j | 0 <= i < j < |follows|
      ensures follows[i].id != follows[j].id
    {
      assert follows[i] == s.follows[i];
      if j < |s.follows| {
        assert follows[j] == s.follows[j];
      } else {
        assert s.follows[i] in s.follows;
      }
    }
  }

  lemma ProfileFollowKeepsValid(s: Store, viewer: Viewer, username: string)
    requires Valid(s) && ViewerValid(s, viewer)
    ensures Valid(ProfileFollow(s, viewer, username).store)
  {
    var r := ProfileFollow(s, viewer, username).store;
    if r.follows != s.follows {
      var u := viewer.value;
      var a := FindUser(s.users, username).value;
      assert r == s.(follows := s.follows + [Follow(s.clock, u.id, a.id, s.clock)], clock := s.clock + 1);
      assert u.id in UserIds(s.users) && a.id in UserIds(s.users);
      AppendFollowKeepsFollowsValid(s, u.id, a.id);
      PostsValidWiden(s, r);
      CommentsValidWiden(s, r);
    }
  }

  lemma ProfileUnfollowKeepsValid(s: Store, viewer: Viewer, username: string)
    requires Valid(s)
    ensures Valid(ProfileUnfollow(s, viewer, username).store)
  {
    var r := ProfileUnfollow(s, viewer, username).store;
    if r.follows != s.follows {
      var u := viewer.value;
      var a := FindUser(s.users, username).value;
      Follows.DeletePairKeepsPairsValid(s.follows, u.id, a.id);
      Seqs.FilterKeepsOrder(s.follows, (f: Follow) => !(f.user == u.id && f.author == a.id),
        (f: Follow, g: Follow) => f.id != g.id);
      PostsValidWiden(s, r);
      CommentsValidWiden(s, r);
    }
  }

  // ---------------------------------------------------------------------
  // Follow / unfollow as a toggle
  // ---------------------------------------------------------------------

  /** Following the same author twice is the same as following once. */
  lemma ProfileFollowIdempotent(s: Store, viewer: Viewer, username: string)
    ensures ProfileFollow(ProfileFollow(s, viewer, username).store, viewer, username)
         == ProfileFollow(s, viewer, username)
  {
  }

  /** Following an author one does not yet follow adds exactly one
      subscription; any other follow request leaves the count alone. */
  lemma ProfileFollowCount(s: Store, u: User, username: string)
    ensures FindUser(s.users, username).Some? ==>
              var a := FindUser(s.users, username).value;
              var after := ProfileFollow(s, Some(u), username).store.follows;
              if u.id != a.id && !Follows.IsFollowing(s.follows, u.id, a.id)
              then Follows.FollowingCount(after, u.id) == Follows.FollowingCount(s.follows, u.id) + 1
              else after == s.follows
  {
    if FindUser(s.users, username).Some? {
      var a := FindUser(s.users, username).value;
      if u.id != a.id && !Follows.IsFollowing(s.follows, u.id, a.id) {
        Follows.FirstFollowAddsOne(s.follows, u.id, a.id, s.clock, s.clock);
      }
    }
  }

  /** Unfollowing a followed author removes exactly one subscription;
      unfollowing anyone else changes nothing. */
  lemma ProfileUnfollowCount(s: Store, u: User, username: string)
    requires Valid(s)
    ensures FindUser(s.users, username).Some? ==>
              var a := FindUser(s.users, username).value;
              var after := ProfileUnfollow(s, Some(u), username).store.follows;
              if Follows.IsFollowing(s.follows, u.id, a.id)
              then Follows.FollowingCount(after, u.id) == Follows.FollowingCount(s.follows, u.id) - 1
              else after == s.follows
  {
    if FindUser(s.users, username).Some? {
      var a := FindUser(s.users, username).value;
      Follows.UnfollowCount(s.follows, u.id, a.id);
    }
  }

  /** Follow then unfollow gives back the follow table it started from. */
  lemma FollowThenUnfollow(s: Store, viewer: Viewer, username: string)
    ensures ProfileUnfollow(ProfileFollow(s, viewer, username).store, viewer, username).store.follows
         == (if viewer.Some? && FindUser(s.users, username).Some?
             then Follows.DeletePair(s.follows, viewer.value.id, FindUser(s.users, username).value.id)
             else s.follows)
  {
    if viewer.Some? && FindUser(s.users, username).Some? {
      var u := viewer.value;
      var a := FindUser(s.users, username).value;
      var mid := ProfileFollow(s, viewer, username).store;
      if mid.follows != s.follows {
        var row := Follow(s.clock, u.id, a.id, s.clock);
        var keep := (f: Follow) => !(f.user == u.id && f.author == a.id);
        Seqs.FilterAppend(s.follows, [row], keep);
        assert Seqs.Filter([row], keep) == [];
      }
    }
  }

  /** Follow then unfollow of an author not followed before restores the
      follow table exactly. */
  lemma FollowThenUnfollowRestores(s: Store, u: User, username: string)
    requires FindUser(s.users, username).Some?
    requires !Follows.IsFollowing(s.follows, u.id, FindUser(s.users, username).value.id)
    ensures ProfileUnfollow(ProfileFollow(s, Some(u), username).store, Some(u), username).store.follows == s.follows
  {
    FollowThenUnfollow(s, Some(u), username);
    var a := FindUser(s.users, username).value;
    Seqs.FilterKeepsAll(s.follows, (f: Follow) => !(f.user == u.id && f.author == a.id));
  }

  /** A post's comments list each comment once when comment ids are
      unique. */
  lemma CommentsOfOnce(comments: seq<Comment>, id: PostId)
    requires forall i, j :: 0 <= i < j < |comments| ==> comments[i].id != comments[j].id
    ensures forall i, j :: 0 <= i < j < |CommentsOf(comments, id)| ==>
              CommentsOf(comments, id)[i].id != CommentsOf(comments, id)[j].id
  {
    Seqs.FilterKeepsOrder(comments, (c: Comment) => c.post == id, (a: Comment, b: Comment) => a.id != b.id);
  }

  /** The post page shows each of the post's comments exactly once. */
  lemma PostDetailCommentsOnce(s: Store, viewer: Viewer, postId: PostId)
    requires Valid(s)
    ensures PostDetail(s, viewer, postId).outcome.Render? ==>
              var cs := PostDetail(s, viewer, postId).outcome.screen.comments;
              forall i, j :: 0 <= i < j < |cs| ==> cs[i].id != cs[j].id
  {
    CommentsOfOnce(s.comments, postId);
  }

  // ---------------------------------------------------------------------
  // Listings against their reference definitions
  // ---------------------------------------------------------------------

  /** The followed-authors page is the newest-first sequence of exactly the
      posts whose author the viewer follows. */
  lemma FollowIndexIsReference(s: Store, u: User, listing: seq<Post>)
    requires Valid(s)
    requires NewestFirst(listing)
    requires forall p :: p in listing <==> p in s.posts && Follows.IsFollowing(s.follows, u.id, p.author)
    ensures FollowIndex(s, Some(u)) == Response(s, Render(Listing(listing)))
  {
    Feeds.SelectIsReference(s.posts, Feeds.ByAuthors(Follows.Followees(s.follows, u.id)), listing);
  }

  /** A group's page is the newest-first sequence of exactly that group's
      posts. */
  lemma GroupPostsIsReference(s: Store, viewer: Viewer, g: Group, listing: seq<Post>)
    requires Valid(s)
    requires g in s.groups
    requires NewestFirst(listing)
    requires forall p :: p in listing <==> p in s.posts && p.group == Some(g.id)
    ensures GroupPosts(s, viewer, g.slug) == Response(s, Render(GroupListing(g, listing)))
  {
    FindGroupUnique(s.groups, g);
    Feeds.SelectIsReference(s.posts, Feeds.InGroup(g.id), listing);
  }

  /** A profile page is the newest-first sequence of exactly that author's
      posts; the follow flag is true for an anonymous viewer and otherwise
      says whether the viewer follows the author. */
  lemma ProfileIsReference(s: Store, viewer: Viewer, a: User, listing: seq<Post>)
    requires Valid(s)
    requires a in s.users
    requires NewestFirst(listing)
    requires forall p :: p in listing <==> p in s.posts && p.author == a.id
    ensures Profile(s, viewer, a.username) == Response(s, Render(ProfileListing(a, listing,
              viewer.None? || Follows.IsFollowing(s.follows, viewer.value.id, a.id))))
  {
    FindUserUnique(s.users, a);
    Feeds.SelectIsReference(s.posts, Feeds.ByAuthor(a.id), listing);
  }

  /** Every listing a view renders is newest first, so the first item of
      page 1 is the newest post shown. */
  lemma FirstOnPageIsNewest(listing: seq<Post>)
    requires NewestFirst(listing)
    requires |listing| > 0
    ensures Paginator.Page(listing, 1)[0] == listing[0]
    ensures forall p :: p in listing ==> p.pubDate <= Paginator.Page(listing, 1)[0].pubDate
  {
  }

  /** The listings rendered from a well-formed store are newest first. */
  lemma RenderedListingsNewestFirst(s: Store, viewer: Viewer, key: string)
    requires Valid(s)
    ensures NewestFirst(Index(s, viewer).outcome.screen.posts)
    ensures GroupPosts(s, viewer, key).outcome.Render? ==> NewestFirst(GroupPosts(s, viewer, key).outcome.screen.posts)
    ensures Profile(s, viewer, key).outcome.Render? ==> NewestFirst(Profile(s, viewer, key).outcome.screen.posts)
    ensures FollowIndex(s, viewer).outcome.Render? ==> NewestFirst(FollowIndex(s, viewer).outcome.screen.posts)
  {
    match FindGroup(s.groups, key) {
      case Some(g) => Feeds.SelectNewestFirst(s.posts, Feeds.InGroup(g.id));
      case None =>
    }
    match FindUser(s.users, key) {
      case Some(a) => Feeds.SelectNewestFirst(s.posts, Feeds.ByAuthor(a.id));
      case None =>
    }
    match viewer {
      case Some(u) => Feeds.SelectNewestFirst(s.posts, Feeds.ByAuthors(Follows.Followees(s.follows, u.id)));
      case None =>
    }
  }
}
