/**
  Post listings. Each listing view selects posts by one criterion and keeps
  the newest-first order of the posts table.
 */
module Feeds {
  import opened Models
  import Seqs

  /** Which posts a listing shows. */
  datatype Criterion =
    | AllPosts                       // the start page
    | InGroup(group: GroupId)        // a group's page
    | ByAuthor(author: UserId)       // a profile page
    | ByAuthors(authors: set<UserId>) // the followed-authors page

  predicate Matches(p: Post, c: Criterion)
  {
    match c
    case AllPosts => true
    case InGroup(g) => p.group == Some(g)
    case ByAuthor(a) => p.author == a
    case ByAuthors(authors) => p.author in authors
  }

  /** The listing for `c`: the matching posts, in table order. */
  function Select(posts: seq<Post>, c: Criterion): (r: seq<Post>)
    ensures forall p :: p in r <==> p in posts && Matches(p, c)
  {
    Seqs.Filter(posts, (p: Post) => Matches(p, c))
  }

  /** A listing of a newest-first table is itself newest first. */
  lemma SelectNewestFirst(posts: seq<Post>, c: Criterion)
    requires NewestFirst(posts)
    ensures NewestFirst(Select(posts, c))
  {
    Seqs.FilterKeepsOrder(posts, (p: Post) => Matches(p, c), (a: Post, b: Post) => a.pubDate > b.pubDate);
  }

  /** The start page lists the whole table. */
  lemma SelectAll(posts: seq<Post>)
    ensures Select(posts, AllPosts) == posts
  {
    Seqs.FilterKeepsAll(posts, (p: Post) => Matches(p, AllPosts));
  }

  /** In a newest-first listing the head is the newest post, every later
      post is strictly older, and the rest is newest first too. */
  lemma NewestFirstHead(a: seq<Post>)
    requires NewestFirst(a) && |a| > 0
    ensures NewestFirst(a[1..])
    ensures forall p :: p in a[1..] ==> p.pubDate < a[0].pubDate
    ensures forall p :: p in a ==> p.pubDate <= a[0].pubDate
    ensures forall p :: p in a && p != a[0] ==> p in a[1..]
  {
    forall i, j | 0 <= i < j < |a[1..]|
      ensures a[1..][i].pubDate > a[1..][j].pubDate
    {
      assert a[1..][i] == a[i + 1] && a[1..][j] == a[j + 1];
    }
    forall p | p in a[1..]
      ensures p.pubDate < a[0].pubDate
    {
      var k :| 0 <= k < |a[1..]| && a[1..][k] == p;
      assert a[k + 1] == p;
    }
    forall p | p in a && p != a[0]
      ensures p in a[1..]
    {
      var k :| 0 <= k < |a| && a[k] == p;
      assert a[1..][k - 1] == p;
    }
  }

  /** Two newest-first listings with the same posts are the same listing:
      the order leaves no freedom. */
  lemma {:induction false} NewestFirstUnique(a: seq<Post>, b: seq<Post>)
    requires NewestFirst(a) && NewestFirst(b)
    requires forall p :: p in a <==> p in b
    ensures a == b
    decreases |a|
  {
    assert |a| > 0 ==> a[0] in a;
    assert |b| > 0 ==> b[0] in b;
    if |a| == 0 {
      assert |b| == 0;
    } else {
      assert |b| > 0;
      NewestFirstHead(a);
      NewestFirstHead(b);
      assert a[0] in b && b[0] in a;
      assert a[0].pubDate == b[0].pubDate;
      assert a[0] == b[0];
      forall p
        ensures p in a[1..] <==> p in b[1..]
      {
        if p in a[1..] {
          assert p in b && p != b[0];
        }
        if p in b[1..] {
          assert p in a && p != a[0];
        }
      }
      NewestFirstUnique(a[1..], b[1..]);
      assert a == [a[0]] + a[1..];
      assert b == [b[0]] + b[1..];
    }
  }

  /** Reference characterisation: over a newest-first table, the listing
      for `c` is THE newest-first sequence of exactly the matching posts. */
  lemma SelectIsReference(posts: seq<Post>, c: Criterion, listing: seq<Post>)
    requires NewestFirst(posts)
    requires NewestFirst(listing)
    requires forall p :: p in listing <==> p in posts && Matches(p, c)
    ensures Select(posts, c) == listing
  {
    SelectNewestFirst(posts, c);
    NewestFirstUnique(Select(posts, c), listing);
  }
}
