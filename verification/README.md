# Yatube posts app: a Dafny model

Yatube is a small social-blogging site: users write posts, optionally file
them under a group, comment on posts and follow other authors. This project
models the rules of its `posts` app over an abstract in-memory store of
users, groups, posts (kept newest first), comments and follow rows:

- the entities and their deletion rules (`yatube/posts/models.py`);
- every view of the app as a pure transition
  `(Store, Viewer, arguments) -> Response(Store, Outcome)`, where the viewer
  is `None` for an anonymous visitor and the outcome is one of `Render`,
  `RedirectProfile`, `RedirectDetail`, `NotFound`, `LoginRedirect`
  (`yatube/posts/views.py`);
- the page arithmetic shared by all listings (`yatube/posts/utils.py`).

The central proved property is that the follow relation never holds a self
pair or the same pair twice. The `Follow` table enforces neither; only the
views keep it so, by refusing self-follows and by creating a row only when
none exists. The model also proves that the listings are order-preserving
filters of the newest-first post table, and that they are the only
newest-first sequences of the posts they select. It proves the
ownership and authorship rules of create, edit and comment, the
cascade/set-null deletion rules, and the page lengths the tests expect.

Files (one module each): `paginator.dfy` (Paginator), `seqs.dfy` (Seqs: an
order-preserving filter and count), `models.dfy` (Models: entities, store
invariant, lookups, `str`), `feeds.dfy` (Feeds: listings), `follows.dfy`
(Follows: the follow table), `views.dfy` (Views), `deletion.dfy`
(Deletion), `invariants.dfy` (Invariants: properties across views).

Modelling choices:

- Time is a store counter `clock`. Each record a view creates takes the
  counter as both its id and its creation time, then the counter advances.
  So new posts are strictly newer than all others and new ids are fresh.
- `Valid(store)` is the store invariant. User ids and usernames are unique.
  Group ids and slugs are unique. Post, comment and follow ids are unique
  and below the clock. Posts are strictly newest first. Every reference
  points at an existing record. The follow relation has no self pair and
  no repeated pair.
- A listing screen carries the whole ordered listing. The page shown for
  page number n is `Paginator.Page(listing, n)`, for 1 <= n <= page count.
- A form's validity is an input. A valid post form is assumed to name an
  existing group or none (`Invariants.FormGroupValid`), which is what the
  form's group choice field guarantees.
- `PAGE_SIZE` is taken to be 10. The listing code reads it from the
  project settings, which are not part of this model; the tests on the
  12-post listings hold for any page size from 1 to 11
  (test_views.py:185-196, 215-226). Every page lemma is stated in terms of the constant.

Three points of the code's behaviour that are easy to misread:

- The profile page's `following` flag is true for an anonymous viewer
  (views.py:43-45).
- The start-page view has no cache (views.py:10-19), although
  test_cache.py tests one.
- Editing changes text, group and image, never the author.

## Model

| member | source | states |
|---|---|---|
| Paginator.NumPages | yatube/posts/utils.py:7-9 | an empty listing has exactly one page; otherwise the page count is the least number of fixed-size pages that holds every item |
| Paginator.Page | yatube/posts/utils.py:5-11 | a page is a contiguous run of the listing in listing order, at most PAGE_SIZE long, full on every page but the last, and the last page ends at the listing's end |
| Paginator.FirstPageFull | yatube/posts/tests/test_views.py:148-155 | with at least PAGE_SIZE items, page 1 holds exactly PAGE_SIZE items and starts with the listing's first item |
| Paginator.SecondPageLength | yatube/posts/utils.py:14-25 | with more than PAGE_SIZE items, page 2 holds exactly the length the tests' page-2 helper expects, min(PAGE_SIZE, count - PAGE_SIZE) |
| Paginator.PagesFlatten | yatube/posts/utils.py:5-11 | reading the pages front to back reproduces the listing, every item exactly once and in order |
| Paginator.PagesAreNumbered | yatube/posts/utils.py:5-11 | the listing splits into exactly NumPages pages and the k-th piece is page k |
| Seqs.Filter | yatube/posts/views.py:121-124 | a filter query keeps exactly the rows that satisfy its condition, and never adds rows |
| Models.GroupStr | yatube/posts/models.py:16-17 | str(group) is exactly the group's title |
| Models.PostStr | yatube/posts/models.py:55-56 | str(post) is exactly the post's whole text, not truncated |
| Models.FindUser | yatube/posts/views.py:39 | the username lookup returns a user with that username, and returns nothing only when no user has it |
| Models.FindGroup | yatube/posts/views.py:25 | the slug lookup returns a group with that slug, and returns nothing only when no group has it |
| Models.FindPost | yatube/posts/views.py:59 | the id lookup returns a post with that id, and returns nothing only when no post has it |
| Models.FindUserUnique | yatube/posts/views.py:39 | with unique usernames, looking up any user's name finds that very user |
| Models.FindGroupUnique | yatube/posts/models.py:13 | with unique slugs, looking up any group's slug finds that very group |
| Feeds.Select | yatube/posts/views.py:26 | a listing holds exactly the table's posts that match its criterion |
| Feeds.SelectNewestFirst | yatube/posts/models.py:52-53 | a listing taken from the newest-first table is itself newest first |
| Feeds.SelectAll | yatube/posts/views.py:13 | the start page's listing is the whole post table, unchanged |
| Feeds.NewestFirstUnique | yatube/posts/models.py:52-53 | two newest-first listings with the same posts are identical |
| Feeds.SelectIsReference | yatube/posts/models.py:52-53 | over a newest-first table, a listing is the one newest-first sequence of exactly the matching posts |
| Follows.Followees | yatube/posts/views.py:121-123 | the followed-author set holds exactly the authors with a row naming the viewer as follower |
| Follows.GetOrCreate | yatube/posts/views.py:139 | afterwards a row for the pair exists; an existing row leaves the table as it was, otherwise exactly one row is appended; no other pair changes |
| Follows.DeletePair | yatube/posts/views.py:149 | afterwards no row for the pair exists, every row of another pair is kept, and no other pair changes |
| Follows.GetOrCreateIdempotent | yatube/posts/views.py:139 | a second get-or-create of the same pair changes nothing |
| Follows.GetOrCreateKeepsPairsValid | yatube/posts/views.py:137-139 | for two different users, get-or-create keeps the relation free of self pairs and repeated pairs |
| Follows.DeletePairKeepsPairsValid | yatube/posts/views.py:149 | deleting a pair's rows keeps the relation free of self pairs and repeated pairs |
| Follows.FirstFollowAddsOne | yatube/posts/tests/test_following.py:44-57 | following a pair not yet followed raises the follower's subscription count by exactly 1 |
| Follows.PairCountOfValid | yatube/posts/models.py:80-93 | without repeated pairs a pair has at most one row, and exactly one exactly when it is followed |
| Follows.DeletePairCount | yatube/posts/views.py:149 | deleting a pair lowers the follower's count by the number of that pair's rows |
| Follows.UnfollowCount | yatube/posts/tests/test_following.py:59-72 | unfollowing a followed author lowers the count by exactly 1; unfollowing anyone else leaves the table unchanged |
| Views.Index | yatube/posts/views.py:10-19 | the start page renders every post in table order and changes nothing |
| Views.GroupPosts | yatube/posts/views.py:22-33 | an unknown slug, and only that, gives NotFound; otherwise the page shows that group and exactly the posts filed under it; the store is unchanged |
| Views.Profile | yatube/posts/views.py:36-53 | an unknown username, and only that, gives NotFound; otherwise exactly that author's posts; following is true for an anonymous viewer and otherwise true exactly when the viewer follows the author |
| Views.CommentsOf | yatube/posts/views.py:60 | a comment is listed for a post if and only if it is attached to that post |
| Views.PostDetail | yatube/posts/views.py:56-63 | an unknown id, and only that, gives NotFound; otherwise the post with that id and a comment list holding a comment if and only if it is attached to the post |
| Invariants.CommentsOfOnce | yatube/posts/views.py:60 | with unique comment ids, a post's comment list repeats no comment |
| Invariants.PostDetailCommentsOnce | yatube/posts/views.py:56-63 | in a valid store the post page lists each of the post's comments exactly once |
| Views.FollowIndex | yatube/posts/views.py:117-129 | anonymous viewers, and only they, are sent to log in; otherwise exactly the posts whose author the viewer follows; the store is unchanged |
| Views.PostCreate | yatube/posts/views.py:66-78 | anonymous viewers are sent to log in with nothing changed; an invalid form is shown again with nothing changed; a valid form adds exactly one post, at the head of the listing, authored by the viewer and carrying the form's text, group and image, and redirects to the viewer's profile |
| Views.ReplacePost | yatube/posts/views.py:90-95 | editing keeps every post's id, time and author and the table's length; only the edited post changes, getting the form's text and group, and the uploaded image if there is one, else keeping its old image |
| Views.PostEdit | yatube/posts/views.py:81-99 | anonymous viewers are sent to log in; an unknown id gives NotFound; a non-author is redirected to the post with nothing changed; the store changes only for the author with a valid form, which edits in place and keeps the post count; the author's invalid or unbound form renders the editor in edit mode with nothing changed |
| Views.AddComment | yatube/posts/views.py:102-114 | anonymous viewers are sent to log in; an unknown post gives NotFound; otherwise the viewer goes back to the post, and a valid form appends exactly one comment by the viewer on that post with the form's text |
| Views.ProfileFollow | yatube/posts/views.py:132-141 | anonymous viewers are sent to log in; an unknown username gives NotFound; following oneself changes nothing; otherwise the pair is followed afterwards and a row is added only if there was none; only the follow table and clock can change |
| Views.ProfileUnfollow | yatube/posts/views.py:144-151 | anonymous viewers are sent to log in; an unknown username gives NotFound; otherwise no row for the pair remains, every other row is kept, and the viewer is redirected to the profile |
| Deletion.DeleteGroup | yatube/posts/models.py:37-44 | deleting a group keeps every post, clears the group of its posts and changes nothing else about any post |
| Deletion.DeletePost | yatube/posts/models.py:60-65 | deleting a post removes it and exactly the comments attached to it |
| Deletion.DeletePostCommentCount | yatube/posts/models.py:60-65 | the number of comments removed with a post is the number attached to it |
| Deletion.DeleteUser | yatube/posts/models.py:31-95 | deleting a user removes their posts, every comment by them or on one of their posts, and every follow row naming them on either side |
| Deletion.DeleteGroupKeepsValid | yatube/posts/models.py:37-44 | deleting a group keeps the store invariant |
| Deletion.DeletePostKeepsValid | yatube/posts/models.py:60-65 | deleting a post keeps the store invariant |
| Deletion.DeleteUserKeepsValid | yatube/posts/models.py:81-93 | deleting a user keeps the store invariant, follow relation included |
| Invariants.PostCreateKeepsValid | yatube/posts/views.py:72-75 | creating a post keeps the store invariant, including strict newest-first order |
| Invariants.PostEditKeepsValid | yatube/posts/views.py:94-95 | editing a post keeps the store invariant |
| Invariants.AddCommentKeepsValid | yatube/posts/views.py:109-113 | adding a comment keeps the store invariant |
| Invariants.ProfileFollowKeepsValid | yatube/posts/views.py:137-139 | following keeps the store invariant: no self pair, no repeated pair |
| Invariants.ProfileUnfollowKeepsValid | yatube/posts/views.py:149 | unfollowing keeps the store invariant |
| Invariants.ProfileFollowIdempotent | yatube/posts/views.py:139 | following the same author twice gives the same store and outcome as following once |
| Invariants.ProfileFollowCount | yatube/posts/tests/test_following.py:44-57 | a first follow of another user raises the viewer's count by exactly 1; a self-follow or a repeat follow leaves the follow table unchanged |
| Invariants.ProfileUnfollowCount | yatube/posts/tests/test_following.py:59-72 | unfollowing a followed author lowers the viewer's count by exactly 1; otherwise the follow table is unchanged |
| Invariants.FollowThenUnfollow | yatube/posts/views.py:139-149 | follow followed by unfollow leaves the follow table with the pair's rows removed and nothing else changed |
| Invariants.FollowThenUnfollowRestores | yatube/posts/views.py:139-149 | follow then unfollow of an author not followed before restores the follow table exactly |
| Invariants.FollowIndexIsReference | yatube/posts/tests/test_following.py:74-94 | the followed-authors page is the newest-first sequence of exactly the followed authors' posts |
| Invariants.GroupPostsIsReference | yatube/posts/tests/test_views.py:265-277 | a group's page is the newest-first sequence of exactly that group's posts |
| Invariants.ProfileIsReference | yatube/posts/views.py:39-53 | a profile page is the newest-first sequence of exactly that author's posts, with the follow flag as the view computes it |
| Invariants.FirstOnPageIsNewest | yatube/posts/tests/test_views.py:154-155 | the first item of page 1 is the newest post of the listing |
| Invariants.RenderedListingsNewestFirst | yatube/posts/models.py:52-53 | every listing rendered from a valid store is newest first |

## Left out

- HTTP routing, templates, context dictionaries and redirect URLs: each response is one `Outcome` value.
- Page-number parsing: the paginator's handling of a missing, non-integer or out-of-range page number is framework behaviour; only pages 1..NumPages are modelled.
- The start-page cache: the view has none, and the cache backend is not part of this model.
- Form validation: validity is an input; the image field's clear checkbox is not modelled (an edit without an upload keeps the old image).
- Image upload and file storage: an image is an optional name.
- The users app, the about pages and the year context processor.
- Wall-clock time: replaced by the store counter; ids of all tables come from that one counter.
- Per-table database id sequences.
- Follows.GetOrCreate: when a pair already has several rows, the real get-or-create raises an error. The model treats any existing row as found. A valid store never has several rows for a pair.
- Concurrency: the invariant is proved for requests applied one after another. Two concurrent follow requests could both create a row, since the table has no uniqueness constraint.
- Views.Profile: the source filters posts by the author's username; the model filters by the resolved author's id, which is the same under unique usernames.
- Views.PostDetail: comments have no declared ordering; the model lists them in store order.
- Field length limits, verbose names and help texts.
- The user-model deletion itself belongs to the authentication framework; `Deletion.DeleteUser` models only its cascades into the posts app.
