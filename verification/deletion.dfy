/**
  What deleting a record does to the rest of the store, following the
  foreign keys' deletion rules: a post's author, a comment's post and
  author, and both users of a follow row cascade; a post's group is set to
  absent.
 */
module Deletion {
  import opened Models
  import Seqs

  /** Delete group `gid`: its posts stay, with their group cleared. */
  function DeleteGroup(s: Store, gid: GroupId): (r: Store)
    ensures forall g :: g in r.groups <==> g in s.groups && g.id != gid
    ensures |r.posts| == |s.posts|
    ensures forall i :: 0 <= i < |r.posts| ==>
              && r.posts[i].id == s.posts[i].id
              && r.posts[i].text == s.posts[i].text
              && r.posts[i].pubDate == s.posts[i].pubDate
              && r.posts[i].author == s.posts[i].author
              && r.posts[i].image == s.posts[i].image
              && r.posts[i].group == (if s.posts[i].group == Some(gid) then None else s.posts[i].group)
    ensures r.(groups := s.groups, posts := s.posts) == s
  {
    var posts := seq(|s.posts|, i requires 0 <= i < |s.posts| =>
      if s.posts[i].group == Some(gid) then s.posts[i].(group := None) else s.posts[i]);
    s.(groups := Seqs.Filter(s.groups, (g: Group) => g.id != gid), posts := posts)
  }

  /** Delete post `pid`: exactly its comments go with it. */
  function DeletePost(s: Store, pid: PostId): (r: Store)
    ensures forall p :: p in r.posts <==> p in s.posts && p.id != pid
    ensures forall c :: c in r.comments <==> c in s.comments && c.post != pid
    ensures r.(posts := s.posts, comments := s.comments) == s
  {
    s.(posts := Seqs.Filter(s.posts, (p: Post) => p.id != pid),
       comments := Seqs.Filter(s.comments, (c: Comment) => c.post != pid))
  }

  /** Delete user `uid`: their posts, every comment by them or on one of
      their posts, and every follow row naming them on either side. */
  function DeleteUser(s: Store, uid: UserId): (r: Store)
    ensures forall u :: u in r.users <==> u in s.users && u.id != uid
    ensures forall p :: p in r.posts <==> p in s.posts && p.author != uid
    ensures forall c :: c in r.comments <==>
              c in s.comments && c.author != uid && c.post in PostIds(r.posts)
    ensures forall f :: f in r.follows <==>
              f in s.follows && f.user != uid && f.author != uid
    ensures r.groups == s.groups && r.clock == s.clock
  {
    var posts := Seqs.Filter(s.posts, (p: Post) => p.author != uid);
    var remaining := PostIds(posts);
    s.(users := Seqs.Filter(s.users, (u: User) => u.id != uid),
       posts := posts,
       comments := Seqs.Filter(s.comments, (c: Comment) => c.author != uid && c.post in remaining),
       follows := Seqs.Filter(s.follows, (f: Follow) => f.user != uid && f.author != uid))
  }

  /** Deleting a post removes as many comments as were attached to it, and
      no more. */
  lemma DeletePostCommentCount(s: Store, pid: PostId)
    ensures |DeletePost(s, pid).comments| == |s.comments| - Seqs.Count(s.comments, (c: Comment) => c.post == pid)
  {
    Seqs.CountSplit(s.comments, (c: Comment) => c.post == pid, (c: Comment) => c.post != pid);
  }

  // ---------------------------------------------------------------------
  // The store invariant survives every deletion
  // ---------------------------------------------------------------------

  lemma DeleteGroupKeepsValid(s: Store, gid: GroupId)
    requires Valid(s)
    ensures Valid(DeleteGroup(s, gid))
  {
    var r := DeleteGroup(s, gid);
    Seqs.FilterKeepsOrder(s.groups, (g: Group) => g.id != gid,
      (a: Group, b: Group) => a.id != b.id && a.slug != b.slug);
    assert PostIds(r.posts) == PostIds(s.posts) by {
      forall id | id in PostIds(s.posts) ensures id in PostIds(r.posts) {
        var p :| p in s.posts && p.id == id;
        var k :| 0 <= k < |s.posts| && s.posts[k] == p;
        assert r.posts[k] in r.posts;
      }
      forall id | id in PostIds(r.posts) ensures id in PostIds(s.posts) {
        var p :| p in r.posts && p.id == id;
        var k :| 0 <= k < |r.posts| && r.posts[k] == p;
        assert s.posts[k] in s.posts;
      }
    }
    forall p | p in r.posts
      ensures GroupRef(r.groups, p.group)
    {
      var k :| 0 <= k < |r.posts| && r.posts[k] == p;
      assert s.posts[k] in s.posts;
      if p.group.Some? {
        var g :| g in s.groups && g.id == p.group.value;
        assert g in r.groups;
      }
    }
  }

  lemma DeletePostKeepsValid(s: Store, pid: PostId)
    requires Valid(s)
    ensures Valid(DeletePost(s, pid))
  {
    var r := DeletePost(s, pid);
    Seqs.FilterKeepsOrder(s.posts, (p: Post) => p.id != pid,
      (a: Post, b: Post) => a.pubDate > b.pubDate && a.id != b.id);
    Seqs.FilterKeepsOrder(s.comments, (c: Comment) => c.post != pid,
      (a: Comment, b: Comment) => a.id != b.id);
    forall c | c in r.comments
      ensures c.post in PostIds(r.posts)
    {
      var p :| p in s.posts && p.id == c.post;
      assert p in r.posts;
    }
  }

  lemma DeleteUserKeepsValid(s: Store, uid: UserId)
    requires Valid(s)
    ensures Valid(DeleteUser(s, uid))
  {
    var r := DeleteUser(s, uid);
    Seqs.FilterKeepsOrder(s.users, (u: User) => u.id != uid,
      (a: User, b: User) => a.id != b.id && a.username != b.username);
    Seqs.FilterKeepsOrder(s.posts, (p: Post) => p.author != uid,
      (a: Post, b: Post) => a.pubDate > b.pubDate && a.id != b.id);
    var remaining := PostIds(r.posts);
    Seqs.FilterKeepsOrder(s.comments, (c: Comment) => c.author != uid && c.post in remaining,
      (a: Comment, b: Comment) => a.id != b.id);
    Seqs.FilterKeepsOrder(s.follows, (f: Follow) => f.user != uid && f.author != uid,
      (a: Follow, b: Follow) => !(a.user == b.user && a.author == b.author) && a.id != b.id);
    assert forall id :: id in UserIds(s.users) && id != uid ==> id in UserIds(r.users) by {
      forall id | id in UserIds(s.users) && id != uid ensures id in UserIds(r.users) {
        var u :| u in s.users && u.id == id;
        assert u in r.users;
      }
    }
  }
}
