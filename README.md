# Yatube posts: a verified model

Yatube is a small blogging site. Users write posts, may put a post in a
group and attach an image, comment on posts, and follow other authors to
get their posts in a personal feed. Every listing is shown ten posts per
page.

This project models the `posts` application in Dafny:

- the entities of `posts/models.py`: their fields, the 15-character
  string form of a post, the `Meta.ordering` of each model, and the
  `on_delete` rules;
- the handlers of `posts/views.py`;
- the paginator helper of `posts/utils.py`.

It proves the properties those files promise, as listed row by row in the table below.

The modules are:

- `Wrappers`: `Option`.
- `Seqs`: filtering, finding and reversing sequences, and the ordering
  predicates, with their lemmas.
- `Models`: the entities, `PostStr` (`Post.__str__`) and the three
  orderings.
- `Pagination`: `PAGINATE_BY = 10`, the page count, page `k` of a listing
  and the request's optional `page` parameter. Its lemmas show that the
  pages concatenate back to the listing and that 13 posts give pages of 10
  and 3.
- `Tables`: the database as one value `Db`, with five tables kept in
  insertion order and the counters that hand out ids and `created` stamps.
  It also holds:
  - the invariant `Valid`: keys ascending and fresh, unique usernames,
    slugs and follow pairs, no self-follow, and every foreign key names an
    existing row;
  - adding users and groups;
  - the cascades run when a post, a user or a group is deleted.
- `Views`: every handler as a function of the database and the request.
  A write handler returns the new database and the response. A read
  handler returns the rendered context. Lemmas show that every write
  handler preserves `Valid`, and relate handlers to each other (follow,
  unfollow and the feed).
- `Blog`: the class `Store`, whose fields are the tables. Its methods make
  the same updates in place. Each one ensures that the new state and the
  response are those of the matching `Views` or `Tables` function, and
  that `Valid` still holds.

The caller is `Option<UserId>`: `None` is an anonymous request. A handler
behind `login_required` answers an anonymous caller with
`LoginRedirect(route)` and changes nothing. A form is `Option<…>`:
`None` is an unbound form (a GET, or an empty POST, since the handlers
bind `request.POST or None`). Newest first means strictly decreasing
`created`. Since tables are kept in insertion order, a listing is the
reversed, filtered table.

## Model

| member | source | states |
|---|---|---|
| Models.PostStr | yatube/posts/models.py:34-35 | a post's string form is a prefix of its text, of length min(len(text), 15) |
| Pagination.PageCount | yatube/posts/utils.py:4-7 | the number of pages is max(1, ⌈n/10⌉): exactly one for an empty listing, otherwise the ceiling of n / 10 |
| Pagination.Page | yatube/posts/utils.py:4-7 | page k holds at most 10 items, exactly 10 unless it is the last page, and is non-empty when the listing is; item i of page k is item (k-1)*10+i of the listing |
| Pagination.Paginate | yatube/posts/utils.py:6-7 | a missing `page` parameter serves page 1, a given one serves that page; never more than 10 items |
| Pagination.PagesPrefix | yatube/posts/utils.py:5-7 | pages 1..k concatenated are the first min(10k, n) items of the listing |
| Pagination.AllPagesConcat | yatube/posts/utils.py:5-7 | all pages concatenated give back the whole listing, with nothing lost or repeated |
| Pagination.LastPageSize | yatube/posts/utils.py:5-7 | for a non-empty listing, the last page holds n mod 10 items, or 10 when that is zero |
| Pagination.ThirteenItems | yatube/posts/tests/test_views.py:266-292 | 13 posts make two pages: the first (no parameter) has 10 posts, page 2 has 3 |
| Pagination.FirstPageStartsListing | yatube/posts/utils.py:6-7 | the first item of the default page is the first item of the listing |
| Pagination.OnSomePage | yatube/posts/utils.py:5-7 | every item of a listing is on some page the paginator serves |
| Tables.Following | yatube/posts/views.py:36-39 | true exactly when some follow row goes from the user to the author |
| Tables.EdgeCountOne | yatube/posts/views.py:137 | with unique follow pairs, a followed author is joined to the follower by exactly one row |
| Tables.EmptyDb | yatube/posts/models.py:8-85 | the empty database satisfies the invariant |
| Tables.AddUser | yatube/users/forms.py:10-51 | a new user gets a fresh id, and a taken username is refused with nothing changed |
| Tables.AddUserValid | yatube/users/forms.py:10-51 | adding a user keeps the invariant |
| Tables.AddGroup | yatube/posts/models.py:38-41 | a new group gets a fresh id and the next stamp; a taken slug is refused with nothing changed |
| Tables.AddGroupValid | yatube/posts/models.py:40 | adding a group keeps slugs unique and the invariant |
| Tables.DeletePost | yatube/posts/models.py:51-57 | deleting a post removes exactly that post and exactly the comments on it (CASCADE); nothing else changes |
| Tables.DeletePostValid | yatube/posts/models.py:51-57 | after the cascade every comment still names an existing post |
| Tables.DeleteUser | yatube/posts/models.py:10-15 | deleting a user removes the user, exactly their posts, and exactly the follow rows where they are follower or author; every comment kept is not theirs (CASCADE on every user key) |
| Tables.DeleteUserComments | yatube/posts/models.py:58-63 | a comment survives a user's deletion exactly when neither it nor its post was written by that user |
| Tables.DeleteUserValid | yatube/posts/models.py:74-85 | after the user cascades no row refers to the deleted user or a deleted post |
| Tables.DeleteGroup | yatube/posts/models.py:16-24 | deleting a group removes it and sets `group` to null on its posts (SET_NULL); every other field and every other post is unchanged |
| Tables.DeleteGroupPosts | yatube/posts/models.py:16-24 | the posts after the deletion are the posts before, with the group cleared |
| Tables.DeleteGroupValid | yatube/posts/models.py:16-24 | after SET_NULL no post refers to the deleted group |
| Views.AllPosts | yatube/posts/views.py:12 | the index listing holds every post exactly, newest first (`Post.Meta.ordering`) |
| Views.GroupListing | yatube/posts/views.py:21 | the group listing holds exactly the group's posts, newest first |
| Views.AuthorListing | yatube/posts/views.py:33-35 | the profile listing holds exactly the author's posts, newest first |
| Views.FeedListing | yatube/posts/views.py:124 | the feed holds exactly the posts whose author the user follows, newest first |
| Views.CommentsOf | yatube/posts/views.py:55 | a post's comments are exactly the comments on it, oldest first (`Comment.Meta.ordering`) |
| Views.PageNewestFirst | yatube/posts/models.py:30 | a page of a newest-first listing is newest first |
| Views.Index | yatube/posts/views.py:11-15 | the index page is the requested page of all posts, newest first: item i is item (k-1)*10+i of the full listing, and it holds min(10, remaining) posts |
| Views.GroupPosts | yatube/posts/views.py:18-28 | 404 exactly when no group has the slug, whatever the page parameter; otherwise that group, exactly its posts newest first, and the requested page of that listing |
| Views.Profile | yatube/posts/views.py:31-46 | 404 exactly when no user has the username, whatever the page parameter; otherwise that user, the requested page of their posts newest first, and `following` true exactly when the caller is logged in and follows them |
| Views.PostDetail | yatube/posts/views.py:49-63 | 404 exactly when no post has the id; otherwise that post and exactly its comments, oldest first |
| Views.PostsCountIsAuthorsPosts | yatube/posts/views.py:51-53 | `posts_count`, counted by the author's username, equals the number of posts on the author's profile |
| Views.FollowIndex | yatube/posts/views.py:122-129 | anonymous callers are sent to login; otherwise the requested page of the feed: the posts of followed authors, newest first |
| Views.FollowIndexShowsFollowedPost | yatube/posts/tests/test_views.py:392-402 | every post of a followed author is served on some page of the feed |
| Views.FollowIndexWithoutFollows | yatube/posts/views.py:124 | a caller who follows nobody gets an empty feed page |
| Views.ThirteenPostsIndex | yatube/posts/tests/test_views.py:266-292 | with 13 posts stored, the index serves 10 on the default page and 3 on page 2 |
| Views.ThirteenPostsGroup | yatube/posts/tests/test_views.py:266-292 | with 13 posts in a group, its page serves 10 on the default page and 3 on page 2 |
| Views.ThirteenPostsProfile | yatube/posts/tests/test_views.py:266-292 | with 13 posts by an author, their profile serves 10 on the default page and 3 on page 2 |
| Views.PostCreate | yatube/posts/views.py:66-83 | anonymous: login redirect, nothing stored; an invalid or unbound form is rendered again with nothing stored; a valid one appends exactly one post with a fresh id, the form's text, group and image and the caller as author, and redirects to the caller's profile |
| Views.PostCreateValid | yatube/posts/views.py:73-76 | creating a post keeps the invariant |
| Views.CreatedPostComesFirst | yatube/posts/tests/test_forms.py:69-117 | a post just created is first on the index, on its author's profile and on its group's page |
| Views.PostEdit | yatube/posts/views.py:86-107 | anonymous: login redirect; unknown id: 404; a caller who is not the author: redirect to the post with nothing changed; the author's valid form replaces that post's text and group with the form's, takes the form's image when one was uploaded and keeps the stored one otherwise, keeps id, author and stamp, and redirects to the post; the author's invalid or unbound form is rendered again with nothing changed; nothing else ever changes the store |
| Views.PostEditValid | yatube/posts/views.py:96-99 | editing a post keeps the invariant |
| Views.AddComment | yatube/posts/views.py:110-119 | anonymous: login redirect; unknown post: 404; otherwise a redirect to the post, and a valid form appends exactly one comment by the caller on that post, an invalid one changes nothing |
| Views.AddCommentValid | yatube/posts/views.py:114-118 | adding a comment keeps the invariant |
| Views.ProfileFollow | yatube/posts/views.py:132-138 | anonymous: login redirect; unknown username: 404; otherwise a redirect to the profile, and the store changes exactly when the author is someone else and not yet followed, by one new edge; afterwards the caller follows the author exactly when the author is someone else |
| Views.ProfileFollowValid | yatube/posts/views.py:136-137 | following keeps follow pairs unique, forbids self-follows and keeps the invariant |
| Views.FollowIdempotent | yatube/posts/views.py:137 | following twice leaves the same store as following once |
| Views.FollowMakesOneEdge | yatube/posts/tests/test_views.py:339-369 | after a follow exactly one edge joins the caller to the author |
| Views.FollowSetsFlag | yatube/posts/views.py:36-39 | after a follow the author's profile shows `following` exactly when the caller is not the author |
| Views.ProfileUnfollow | yatube/posts/views.py:141-145 | anonymous: login redirect; unknown username: 404; otherwise exactly the edges from the caller to the author are removed, nothing else changes, and the caller no longer follows the author |
| Views.ProfileUnfollowValid | yatube/posts/views.py:144 | unfollowing keeps the invariant |
| Views.FollowThenUnfollow | yatube/posts/views.py:137-144 | unfollowing right after a first follow gives back the follow table as it was |
| Views.UnfollowWithoutEdge | yatube/posts/tests/test_views.py:371-390 | unfollowing an author one does not follow changes nothing |
| Views.FeedShowsFollowedAuthor | yatube/posts/tests/test_views.py:392-406 | after following an author, all their posts are in the caller's feed |
| Views.FeedHidesUnfollowedAuthor | yatube/posts/tests/test_views.py:392-406 | after unfollowing an author, none of their posts is in the caller's feed |
| Views.IndexStartsWithNewest | yatube/posts/models.py:29-30 | the first post on the first index page is the newest stored post |
| Views.DeleteMessage | yatube/posts/views.py:148-157 | anonymous: login redirect; 404 unless the caller wrote a post with that id; a POST deletes it with its comments and redirects to the index; any other method renders the confirmation and changes nothing |
| Views.DeleteMessageValid | yatube/posts/views.py:153-155 | deleting one's post keeps the invariant |
| Blog.Store.constructor | yatube/posts/models.py:8-85 | a new store is empty and valid |
| Blog.Store.RegisterUser | yatube/users/forms.py:10-51 | updates the user table in place as `Tables.AddUser` and stays valid |
| Blog.Store.CreateGroup | yatube/posts/models.py:38-41 | updates the group table in place as `Tables.AddGroup` and stays valid |
| Blog.Store.PostCreate | yatube/posts/views.py:66-83 | updates the tables in place as `Views.PostCreate` and stays valid |
| Blog.Store.PostEdit | yatube/posts/views.py:86-107 | updates the post in place as `Views.PostEdit` and stays valid |
| Blog.Store.AddComment | yatube/posts/views.py:110-119 | updates the tables in place as `Views.AddComment` and stays valid |
| Blog.Store.ProfileFollow | yatube/posts/views.py:132-138 | updates the follow table in place as `Views.ProfileFollow` and stays valid |
| Blog.Store.ProfileUnfollow | yatube/posts/views.py:141-145 | updates the follow table in place as `Views.ProfileUnfollow` and stays valid |
| Blog.Store.DeleteMessage | yatube/posts/views.py:148-157 | updates the tables in place as `Views.DeleteMessage` and stays valid |
| Blog.Store.DeletePost | yatube/posts/models.py:51-57 | removes the post and its comments in place as `Tables.DeletePost` and stays valid |
| Blog.Store.DeleteUser | yatube/posts/models.py:10-15 | runs the user cascades in place as `Tables.DeleteUser` and stays valid |
| Blog.Store.DeleteGroup | yatube/posts/models.py:16-24 | clears the group of its posts in place as `Tables.DeleteGroup` and stays valid |

## Left out

- Page-number clamping: a `page` value that is not a number or is out of range is handled by Django's `Paginator.get_page`, which is library behaviour. The handlers here require the parameter, when given, to name an existing page.
- Templates, the rendered HTML, form widgets, placeholders and verbose names: presentation only.
- The index page cache and its invalidation: `urls.py` and the cache settings are not part of this model.
- URL strings: routes are kept as the abstract `Route` values, because `urls.py` is not part of this model. A login redirect carries the route it came from.
- Image validation and storage: an image is an opaque path. On an edit, a form with no new image keeps the stored one.
- Views.PostEdit: the edit form's "clear" checkbox for the image is not modelled, so an edit never removes a stored image.
- `Group.Meta.ordering`: it is stated as `Models.GroupsNewestFirst`, but no handler lists groups, so no contract uses it.
- Form field cleaning: the text form fields strip surrounding whitespace, which is not modelled. The model treats text as valid exactly when it is non-empty.
- `Group.__str__` and `Comment.__str__`: each returns one field unchanged and is used only for display.
- Strings are sequences of code points. Django's `text[:15]` also counts code points, so `PostStr` agrees, but no encoding is modelled.
- User registration: handled by the identity collaborator, which is not part of this model. `AddUser` stands for it, with unique usernames and fresh ids.
- Timestamps: `created` comes from `core/models.py`, which is not part of this model. It is modelled as a strictly increasing counter, so no two rows share a stamp.
- Concurrency: two simultaneous `get_or_create` calls could race and store a duplicate edge. Every request is modelled as atomic, so the duplicate never arises.
- The database's own errors, such as integrity or connection failures: not modelled.
- `select_related`: a query optimisation with no effect on results.
