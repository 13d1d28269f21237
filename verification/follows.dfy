/**
  The follow table as a relation between users. The table accepts any row;
  it is the follow views that keep the relation free of self pairs and of
  repeated pairs, by refusing to follow oneself and by creating a row only
  when none exists for the pair.
 */
module Follows {
  import opened Models
  import Seqs

  /** Some row says `user` follows `author`. */
  predicate IsFollowing(follows: seq<Follow>, user: UserId, author: UserId)
  {
    exists f :: f in follows && f.user == user && f.author == author
  }

  /** Authors `user` follows. */
  function Followees(follows: seq<Follow>, user: UserId): (r: set<UserId>)
    ensures forall a :: a in r <==> IsFollowing(follows, user, a)
  {
    set f | f in follows && f.user == user :: f.author
  }

  /** Number of rows whose follower is `user`. */
  function FollowingCount(follows: seq<Follow>, user: UserId): nat
  {
    Seqs.Count(follows, (f: Follow) => f.user == user)
  }

  /** Number of rows for the pair (`user`, `author`). */
  function PairCount(follows: seq<Follow>, user: UserId, author: UserId): nat
  {
    Seqs.Count(follows, (f: Follow) => f.user == user && f.author == author)
  }

  /** Get-or-create of the row (`user`, `author`): an existing row is kept
      as it is; otherwise one new row with the given id and time is added. */
  function GetOrCreate(follows: seq<Follow>, user: UserId, author: UserId, id: nat, created: nat): (r: seq<Follow>)
    ensures IsFollowing(r, user, author)
    ensures IsFollowing(follows, user, author) ==> r == follows
    ensures !IsFollowing(follows, user, author) ==> r == follows + [Follow(id, user, author, created)]
    ensures forall x, y :: !(x == user && y == author) ==>
              (IsFollowing(r, x, y) <==> IsFollowing(follows, x, y))
  {
    if IsFollowing(follows, user, author) then follows
    else
      var row := Follow(id, user, author, created);
      assert row in follows + [row];
      follows + [row]
  }

  /** Deletion of every row for the pair (`user`, `author`). */
  function DeletePair(follows: seq<Follow>, user: UserId, author: UserId): (r: seq<Follow>)
    ensures !IsFollowing(r, user, author)
    ensures forall f :: f in r <==> f in follows && !(f.user == user && f.author == author)
    ensures forall x, y :: !(x == user && y == author) ==>
              (IsFollowing(r, x, y) <==> IsFollowing(follows, x, y))
  {
    Seqs.Filter(follows, (f: Follow) => !(f.user == user && f.author == author))
  }

  /** Asking twice creates nothing more. */
  lemma GetOrCreateIdempotent(follows: seq<Follow>, user: UserId, author: UserId, id: nat, created: nat, id': nat, created': nat)
    ensures GetOrCreate(GetOrCreate(follows, user, author, id, created), user, author, id', created')
         == GetOrCreate(follows, user, author, id, created)
  {
  }

  /** Following someone other than oneself keeps the relation free of self
      pairs and repeated pairs. */
  lemma GetOrCreateKeepsPairsValid(follows: seq<Follow>, user: UserId, author: UserId, id: nat, created: nat)
    requires FollowPairsValid(follows)
    requires user != author
    ensures FollowPairsValid(GetOrCreate(follows, user, author, id, created))
  {
    var r := GetOrCreate(follows, user, author, id, created);
    if !IsFollowing(follows, user, author) {
      forall i, j | 0 <= i < j < |r|
        ensures !(r[i].user == r[j].user && r[i].author == r[j].author)
      {
        if j == |follows| {
          assert r[i] in follows;
        }
      }
    }
  }

  /** Deleting rows keeps the relation free of self pairs and repeated pairs. */
  lemma DeletePairKeepsPairsValid(follows: seq<Follow>, user: UserId, author: UserId)
    requires FollowPairsValid(follows)
    ensures FollowPairsValid(DeletePair(follows, user, author))
  {
    var keep := (f: Follow) => !(f.user == user && f.author == author);
    Seqs.FilterKeepsOrder(follows, keep,
      (f: Follow, g: Follow) => !(f.user == g.user && f.author == g.author));
  }

  /** A new pair adds exactly one row to its follower's subscriptions. */
  lemma FirstFollowAddsOne(follows: seq<Follow>, user: UserId, author: UserId, id: nat, created: nat)
    requires !IsFollowing(follows, user, author)
    ensures FollowingCount(GetOrCreate(follows, user, author, id, created), user) == FollowingCount(follows, user) + 1
  {
    var row := Follow(id, user, author, created);
    Seqs.CountAppend(follows, [row], (f: Follow) => f.user == user);
    assert Seqs.Filter([row], (f: Follow) => f.user == user) == [row];
  }

  /** Dropping the first row keeps the relation free of self pairs and
      repeated pairs. */
  lemma TailPairsValid(follows: seq<Follow>)
    requires FollowPairsValid(follows) && |follows| > 0
    ensures FollowPairsValid(follows[1..])
  {
    var tail := follows[1..];
    forall f | f in tail ensures f.user != f.author {
      assert f in follows;
    }
    forall i, j | 0 <= i < j < |tail|
      ensures !(tail[i].user == tail[j].user && tail[i].author == tail[j].author)
    {
      assert tail[i] == follows[i + 1] && tail[j] == follows[j + 1];
    }
  }

  /** Without repeated pairs a pair has at most one row, and exactly one when
      it is followed. */
  lemma {:induction false} PairCountOfValid(follows: seq<Follow>, user: UserId, author: UserId)
    requires FollowPairsValid(follows)
    ensures PairCount(follows, user, author) <= 1
    ensures IsFollowing(follows, user, author) <==> PairCount(follows, user, author) == 1
    decreases |follows|
  {
    var pair := (f: Follow) => f.user == user && f.author == author;
    if |follows| > 0 {
      var tail := follows[1..];
      TailPairsValid(follows);
      PairCountOfValid(tail, user, author);
      assert follows == [follows[0]] + tail;
      Seqs.CountAppend([follows[0]], tail, pair);
      if pair(follows[0]) {
        assert !IsFollowing(tail, user, author) by {
          forall f | f in tail
            ensures !(f.user == user && f.author == author)
          {
            var k :| 0 <= k < |tail| && tail[k] == f;
            assert follows[k + 1] == f;
          }
        }
        assert follows[0] in follows;
      } else {
        assert Seqs.Filter([follows[0]], pair) == [];
        assert IsFollowing(follows, user, author) <==> IsFollowing(tail, user, author) by {
          if IsFollowing(follows, user, author) {
            var f :| f in follows && f.user == user && f.author == author;
            assert f != follows[0];
            var k :| 0 <= k < |follows| && follows[k] == f;
            assert tail[k - 1] == f;
          }
          if IsFollowing(tail, user, author) {
            var f :| f in tail && f.user == user && f.author == author;
            assert f in follows;
          }
        }
      }
    }
  }

  /** Deleting a pair takes exactly that pair's rows off its follower's
      subscriptions. */
  lemma {:induction false} DeletePairCount(follows: seq<Follow>, user: UserId, author: UserId)
    ensures FollowingCount(DeletePair(follows, user, author), user)
         == FollowingCount(follows, user) - PairCount(follows, user, author)
    decreases |follows|
  {
    var mine := (f: Follow) => f.user == user;
    var pair := (f: Follow) => f.user == user && f.author == author;
    var keep := (f: Follow) => !(f.user == user && f.author == author);
    if |follows| > 0 {
      var head := follows[0];
      var tail := follows[1..];
      assert follows == [head] + tail;
      DeletePairCount(tail, user, author);
      Seqs.FilterAppend([head], tail, keep);
      Seqs.CountAppend([head], tail, mine);
      Seqs.CountAppend([head], tail, pair);
      var kept := Seqs.Filter([head], keep);
      Seqs.CountAppend(kept, Seqs.Filter(tail, keep), mine);
      if keep(head) {
        assert kept == [head];
        assert Seqs.Filter([head], pair) == [];
      } else {
        assert kept == [];
        assert Seqs.Filter([head], pair) == [head];
        assert Seqs.Filter([head], mine) == [head];
      }
    }
  }

  /** Unfollowing a followed author takes exactly one row off the
      follower's subscriptions; unfollowing anyone else changes nothing. */
  lemma UnfollowCount(follows: seq<Follow>, user: UserId, author: UserId)
    requires FollowPairsValid(follows)
    ensures IsFollowing(follows, user, author) ==>
              FollowingCount(DeletePair(follows, user, author), user) == FollowingCount(follows, user) - 1
    ensures !IsFollowing(follows, user, author) ==> DeletePair(follows, user, author) == follows
  {
    PairCountOfValid(follows, user, author);
    DeletePairCount(follows, user, author);
    if !IsFollowing(follows, user, author) {
      Seqs.FilterKeepsAll(follows, (f: Follow) => !(f.user == user && f.author == author));
    }
  }
}
