/** The request handlers of `posts/views.py` as functions of the store:
    each write handler maps a store and a request to the new store and a
    response, and each read handler maps a store and a request to the
    context it renders. */
module Views {
  import opened Wrappers
  import opened Seqs
  import opened Models
  import opened Pagination
  import opened Tables

  /** A page of the site, named by its route. */
  datatype Route =
    | IndexRoute
    | ProfileRoute(username: string)
    | PostDetailRoute(postId: PostId)
    | CreateRoute
    | EditRoute(postId: PostId)
    | CommentRoute(postId: PostId)
    | FollowIndexRoute
    | FollowRoute(username: string)
    | UnfollowRoute(username: string)
    | DeleteRoute(postId: PostId)

  /** What a handler answers: a rendered template with its context, a
      redirect, the login redirect `/auth/login/?next=<route>` that
      `login_required` sends anonymous callers to, or a 404. */
  datatype Response<T> =
    | Render(context: T)
    | Redirect(to: Route)
    | LoginRedirect(next: Route)
    | NotFound

  /** The templates the write handlers render instead of redirecting. */
  datatype FormPage = PostFormPage(isEdit: bool) | DeleteConfirmPage

  /** The submitted fields of `PostForm` (text, group, image); it has no author field. */
  datatype PostForm = PostForm(text: string, group: Option<GroupId>, image: Option<Image>)

  /** The submitted field of `CommentForm`. */
  datatype CommentForm = CommentForm(text: string)

  /** `PostForm.is_valid()`: the text is required, and a chosen group must exist. */
  predicate PostFormValid(db: Db, f: PostForm)
  {
    f.text != [] && (f.group.Some? ==> f.group.value in GroupIds(db.groups))
  }

  /** `CommentForm.is_valid()`: the text is required. */
  predicate CommentFormValid(f: CommentForm)
  {
    f.text != []
  }

  /** The caller, when there is one, is a user of the store. */
  ghost predicate Known(db: Db, actor: Option<UserId>)
  {
    actor.Some? ==> actor.value in UserIds(db.users)
  }

  function OwnedPost(id: PostId, author: UserId): Post -> bool
  {
    (p: Post) => p.id == id && p.author == author
  }

  function AuthorNamed(users: seq<User>, name: string): Post -> bool
  {
    (p: Post) => exists u :: u in users && u.id == p.author && u.username == name
  }

  function AuthorFollowedBy(follows: seq<Follow>, user: UserId): Post -> bool
  {
    (p: Post) => Following(follows, user, p.author)
  }

  // ---------------------------------------------------------------- listings

  /** `Post.objects.all()`: every post, newest first. */
  function AllPosts(db: Db): (r: seq<Post>)
    requires Valid(db)
    ensures forall p :: p in r <==> p in db.posts
    ensures PostsNewestFirst(r)
  {
    ReverseAscending(db.posts, PostCreated);
    Reverse(db.posts)
  }

  /** `Post.objects.filter(group=group)`: the group's posts, newest first. */
  function GroupListing(db: Db, group: GroupId): (r: seq<Post>)
    requires Valid(db)
    ensures forall p :: p in r <==> p in db.posts && p.group == Some(group)
    ensures PostsNewestFirst(r)
  {
    FilterAscending(db.posts, InGroup(group), PostCreated);
    ReverseAscending(Filter(db.posts, InGroup(group)), PostCreated);
    Reverse(Filter(db.posts, InGroup(group)))
  }

  /** `Post.objects.filter(author=author)`: the author's posts, newest first. */
  function AuthorListing(db: Db, author: UserId): (r: seq<Post>)
    requires Valid(db)
    ensures forall p :: p in r <==> p in db.posts && p.author == author
    ensures PostsNewestFirst(r)
  {
    FilterAscending(db.posts, ByAuthor(author), PostCreated);
    ReverseAscending(Filter(db.posts, ByAuthor(author)), PostCreated);
    Reverse(Filter(db.posts, ByAuthor(author)))
  }

  /** `Post.objects.filter(author__following__user=user)`: the posts of
      every author `user` follows, newest first. */
  function FeedListing(db: Db, user: UserId): (r: seq<Post>)
    requires Valid(db)
    ensures forall p :: p in r <==>
      p in db.posts && exists f :: f in db.follows && f.user == user && f.author == p.author
    ensures PostsNewestFirst(r)
  {
    FilterAscending(db.posts, AuthorFollowedBy(db.follows, user), PostCreated);
    ReverseAscending(Filter(db.posts, AuthorFollowedBy(db.follows, user)), PostCreated);
    Reverse(Filter(db.posts, AuthorFollowedBy(db.follows, user)))
  }

  /** `post.comments.all()`: the post's comments, oldest first. */
  function CommentsOf(db: Db, post: PostId): (r: seq<Comment>)
    requires Valid(db)
    ensures forall c :: c in r <==> c in db.comments && c.post == post
    ensures CommentsOldestFirst(r)
  {
    FilterAscending(db.comments, OnPost(post), CommentCreated);
    Filter(db.comments, OnPost(post))
  }

  /** A page of a newest-first listing is itself newest first. */
  lemma PageNewestFirst(items: seq<Post>, page: Option<nat>)
    requires PostsNewestFirst(items) && ValidPageParam(|items|, page)
    ensures PostsNewestFirst(Paginate(items, page))
  {
    var r := Paginate(items, page);
    var lo := (PageNumber(page) - 1) * PAGINATE_BY;
    assert IsPageOf(r, items, page);
    SliceDescending(items, r, lo, PostCreated);
  }

  // ------------------------------------------------------------ read handlers

  /** `index`: a page of every post, newest first. */
  function Index(db: Db, page: Option<nat>): (r: seq<Post>)
    requires Valid(db) && ValidPageParam(|db.posts|, page)
    ensures IsPageOf(r, AllPosts(db), page)
    ensures |r| <= PAGINATE_BY
    ensures PostsNewestFirst(r)
    ensures forall p :: p in r ==> p in db.posts
  {
    PageNewestFirst(AllPosts(db), page);
    Paginate(AllPosts(db), page)
  }

  /** The context of the group page. */
  datatype GroupContext = GroupContext(group: Group, posts: seq<Post>, pageObj: seq<Post>)

  /** `group_posts`: 404 for an unknown slug, otherwise the group, all its
      posts and the requested page of them, newest first. */
  function GroupPosts(db: Db, slug: string, page: Option<nat>): (r: Response<GroupContext>)
    requires Valid(db)
    requires Find(db.groups, HasSlug(slug)).Some? ==>
      ValidPageParam(|GroupListing(db, Find(db.groups, HasSlug(slug)).value.id)|, page)
    ensures r.NotFound? <==> forall g :: g in db.groups ==> g.slug != slug
    ensures r.Render? ==>
      && r.context.group in db.groups && r.context.group.slug == slug
      && (forall p :: p in r.context.posts <==> p in db.posts && p.group == Some(r.context.group.id))
      && PostsNewestFirst(r.context.posts)
      && IsPageOf(r.context.pageObj, r.context.posts, page)
      && |r.context.pageObj| <= PAGINATE_BY && PostsNewestFirst(r.context.pageObj)
      && (forall p :: p in r.context.pageObj ==> p in r.context.posts)
    ensures r.NotFound? || r.Render?
  {
    match Find(db.groups, HasSlug(slug))
    case None => NotFound
    case Some(g) =>
      var posts := GroupListing(db, g.id);
      PageNewestFirst(posts, page);
      Render(GroupContext(g, posts, Paginate(posts, page)))
  }

  /** The context of the profile page. */
  datatype ProfileContext = ProfileContext(author: User, pageObj: seq<Post>, following: bool)

  /** `profile`: 404 for an unknown username, otherwise the author, a page
      of their posts, newest first, and whether the caller follows them. */
  function Profile(db: Db, viewer: Option<UserId>, username: string, page: Option<nat>): (r: Response<ProfileContext>)
    requires Valid(db)
    requires Find(db.users, HasUsername(username)).Some? ==>
      ValidPageParam(|AuthorListing(db, Find(db.users, HasUsername(username)).value.id)|, page)
    ensures r.NotFound? <==> forall u :: u in db.users ==> u.username != username
    ensures r.Render? ==>
      && r.context.author in db.users && r.context.author.username == username
      && IsPageOf(r.context.pageObj, AuthorListing(db, r.context.author.id), page)
      && (forall p :: p in r.context.pageObj ==> p in db.posts && p.author == r.context.author.id)
      && |r.context.pageObj| <= PAGINATE_BY && PostsNewestFirst(r.context.pageObj)
      && (r.context.following <==>
            viewer.Some? && exists f :: f in db.follows && f.user == viewer.value && f.author == r.context.author.id)
    ensures r.NotFound? || r.Render?
  {
    match Find(db.users, HasUsername(username))
    case None => NotFound
    case Some(author) =>
      var posts := AuthorListing(db, author.id);
      PageNewestFirst(posts, page);
      var following := viewer.Some? && Following(db.follows, viewer.value, author.id);
      Render(ProfileContext(author, Paginate(posts, page), following))
  }

  /** The context of the post page. */
  datatype DetailContext = DetailContext(post: Post, postsCount: nat, comments: seq<Comment>)

  /** `post_detail`: 404 for an unknown id, otherwise the post, the number
      of posts whose author has the post's author's username, and the
      post's comments, oldest first. */
  function PostDetail(db: Db, id: PostId): (r: Response<DetailContext>)
    requires Valid(db)
    ensures r.NotFound? <==> id !in PostIds(db.posts)
    ensures r.Render? ==>
      && r.context.post in db.posts && r.context.post.id == id
      && (forall c :: c in r.context.comments <==> c in db.comments && c.post == id)
      && CommentsOldestFirst(r.context.comments)
    ensures r.NotFound? || r.Render?
  {
    match Find(db.posts, HasPostId(id))
    case None => NotFound
    case Some(post) =>
      var author := Find(db.users, HasUserId(post.author));
      var count := |Filter(db.posts, AuthorNamed(db.users, author.value.username))|;
      Render(DetailContext(post, count, CommentsOf(db, id)))
  }

  /** `follow_index`: login redirect for an anonymous caller, otherwise a
      page of the feed. */
  function FollowIndex(db: Db, actor: Option<UserId>, page: Option<nat>): (r: Response<seq<Post>>)
    requires Valid(db)
    requires actor.Some? ==> ValidPageParam(|FeedListing(db, actor.value)|, page)
    ensures actor.None? ==> r == LoginRedirect(FollowIndexRoute)
    ensures actor.Some? ==>
      && r.Render?
      && IsPageOf(r.context, FeedListing(db, actor.value), page)
      && |r.context| <= PAGINATE_BY && PostsNewestFirst(r.context)
      && forall p :: p in r.context ==>
           p in db.posts && exists f :: f in db.follows && f.user == actor.value && f.author == p.author
  {
    match actor
    case None => LoginRedirect(FollowIndexRoute)
    case Some(u) =>
      var feed := FeedListing(db, u);
      PageNewestFirst(feed, page);
      var pageObj := Paginate(feed, page);
      PageWithin(feed, page);
      Render(pageObj)
  }

  // ----------------------------------------------------------- write handlers

  /** Whether a store differs from another only in its post table and counters. */
  ghost predicate OnlyPostsChange(r: Db, db: Db)
  {
    r.users == db.users && r.groups == db.groups && r.comments == db.comments && r.follows == db.follows
  }

  /** `post_create`: with a valid form, one new post whose author is the
      caller, then a redirect to the caller's profile; otherwise the form
      is rendered again and nothing is stored. */
  function PostCreate(db: Db, actor: Option<UserId>, form: Option<PostForm>): (r: (Db, Response<FormPage>))
    requires Valid(db) && Known(db, actor)
    ensures actor.None? ==> r == (db, LoginRedirect(CreateRoute))
    ensures actor.Some? && !(form.Some? && PostFormValid(db, form.value)) ==> r == (db, Render(PostFormPage(false)))
    ensures actor.Some? && form.Some? && PostFormValid(db, form.value) ==>
      && OnlyPostsChange(r.0, db)
      && |r.0.posts| == |db.posts| + 1 && r.0.posts[..|db.posts|] == db.posts
      && var p := r.0.posts[|db.posts|];
         && p.id !in PostIds(db.posts)
         && p.author == actor.value
         && p.text == form.value.text && p.group == form.value.group && p.image == form.value.image
         && exists u :: u in db.users && u.id == actor.value && r.1 == Redirect(ProfileRoute(u.username))
  {
    match actor
    case None => (db, LoginRedirect(CreateRoute))
    case Some(u) =>
      if form.Some? && PostFormValid(db, form.value) then
        var post := Post(db.nextId, form.value.text, u, form.value.group, form.value.image, db.clock);
        var author := Find(db.users, HasUserId(u));
        assert post.id !in PostIds(db.posts);
        (db.(posts := db.posts + [post], nextId := db.nextId + 1, clock := db.clock + 1),
         Redirect(ProfileRoute(author.value.username)))
      else
        (db, Render(PostFormPage(false)))
  }

  lemma PostCreateValid(db: Db, actor: Option<UserId>, form: Option<PostForm>)
    requires Valid(db) && Known(db, actor)
    ensures Valid(PostCreate(db, actor, form).0)
  {
    var r := PostCreate(db, actor, form).0;
    if r != db {
      var p := r.posts[|db.posts|];
      assert r.posts == db.posts + [p];
      AppendCounted(db.posts, p, PostKey, db.nextId, r.nextId);
      AppendCounted(db.posts, p, PostCreated, db.clock, r.clock);
      assert PostIds(db.posts) <= PostIds(r.posts);
    }
  }

  /** The post an author's valid edit form leaves behind: new text, group
      and (when a file was uploaded) image; id, author and creation stamp kept. */
  function Edited(post: Post, form: PostForm, author: UserId): Post
  {
    post.(text := form.text, group := form.group,
          image := if form.image.Some? then form.image else post.image,
          author := author)
  }

  /** The post table with the post `id` replaced by `post`. */
  function Replace(posts: seq<Post>, id: PostId, post: Post): (r: seq<Post>)
    ensures |r| == |posts|
    ensures forall i :: 0 <= i < |posts| ==> r[i] == if posts[i].id == id then post else posts[i]
  {
    seq(|posts|, i requires 0 <= i < |posts| => if posts[i].id == id then post else posts[i])
  }

  /** `post_edit`: 404 for an unknown id; a caller who is not the author
      is sent to the post page and nothing changes; the author's valid
      form updates that post's text, group and image in place and keeps
      its id, author and creation stamp; an invalid or unbound form is
      rendered again. */
  function PostEdit(db: Db, actor: Option<UserId>, id: PostId, form: Option<PostForm>): (r: (Db, Response<FormPage>))
    requires Valid(db) && Known(db, actor)
    ensures actor.None? ==> r == (db, LoginRedirect(EditRoute(id)))
    ensures actor.Some? && id !in PostIds(db.posts) ==> r == (db, NotFound)
    ensures forall p :: p in db.posts && p.id == id && actor.Some? && actor.value != p.author ==>
      r == (db, Redirect(PostDetailRoute(id)))
    ensures forall p :: p in db.posts && p.id == id && actor == Some(p.author) ==>
      if form.Some? && PostFormValid(db, form.value) then
        && r.1 == Redirect(PostDetailRoute(id))
        && r.0 == db.(posts := r.0.posts)
        && |r.0.posts| == |db.posts|
        && forall i :: 0 <= i < |db.posts| ==>
             r.0.posts[i] == if db.posts[i].id != id then db.posts[i]
                             else db.posts[i].(text := form.value.text, group := form.value.group,
                                               image := if form.value.image.Some? then form.value.image else db.posts[i].image)
      else
        r == (db, Render(PostFormPage(true)))
    ensures r.0 != db ==>
      && actor.Some? && form.Some? && PostFormValid(db, form.value)
      && r.1 == Redirect(PostDetailRoute(id))
      && OnlyPostsChange(r.0, db) && r.0.nextId == db.nextId && r.0.clock == db.clock
      && |r.0.posts| == |db.posts|
      && forall i :: 0 <= i < |db.posts| ==>
           if db.posts[i].id != id then r.0.posts[i] == db.posts[i]
           else
             && db.posts[i].author == actor.value
             && r.0.posts[i].id == id && r.0.posts[i].author == db.posts[i].author
             && r.0.posts[i].created == db.posts[i].created
             && r.0.posts[i].text == form.value.text && r.0.posts[i].group == form.value.group
  {
    match actor
    case None => (db, LoginRedirect(EditRoute(id)))
    case Some(u) =>
      match Find(db.posts, HasPostId(id))
      case None => (db, NotFound)
      case Some(post) =>
        if u != post.author then
          (db, Redirect(PostDetailRoute(id)))
        else if form.Some? && PostFormValid(db, form.value) then
          (db.(posts := Replace(db.posts, id, Edited(post, form.value, u))), Redirect(PostDetailRoute(id)))
        else
          (db, Render(PostFormPage(true)))
  }

  /** Replacing a post by one with the same id and stamp keeps the table counted. */
  lemma ReplaceCounted(posts: seq<Post>, q: Post, post: Post, nextId: nat, clock: nat)
    requires Counted(posts, PostKey, nextId) && Counted(posts, PostCreated, clock)
    requires q in posts && post.id == q.id && post.created == q.created
    ensures Counted(Replace(posts, q.id, post), PostKey, nextId) && Counted(Replace(posts, q.id, post), PostCreated, clock)
  {
    var r := Replace(posts, q.id, post);
    forall i, j | 0 <= i < j < |r|
      ensures PostKey(r[i]) < PostKey(r[j]) && PostCreated(r[i]) < PostCreated(r[j])
    {
      if posts[i].id == q.id { KeyNamesOneRow(posts, PostKey, posts[i], q); }
      if posts[j].id == q.id { KeyNamesOneRow(posts, PostKey, posts[j], q); }
    }
    forall p | p in r ensures PostKey(p) < nextId && PostCreated(p) < clock {
      var i :| 0 <= i < |r| && r[i] == p;
      assert posts[i] in posts;
    }
  }

  /** Replacing a post by one with the same id keeps the set of post ids. */
  lemma ReplaceIds(posts: seq<Post>, q: Post, post: Post)
    requires q in posts && post.id == q.id
    ensures PostIds(Replace(posts, q.id, post)) == PostIds(posts)
  {
    var r := Replace(posts, q.id, post);
    forall id | id in PostIds(posts) ensures id in PostIds(r) {
      var p :| p in posts && p.id == id;
      var i :| 0 <= i < |posts| && posts[i] == p;
      assert r[i] in r;
    }
    forall id | id in PostIds(r) ensures id in PostIds(posts) {
      var p :| p in r && p.id == id;
      var i :| 0 <= i < |r| && r[i] == p;
      assert posts[i] in posts;
    }
  }

  /** Replacing a post by one with the same id and stamp whose author and
      group exist keeps the store valid. */
  lemma ReplaceValid(db: Db, q: Post, post: Post)
    requires Valid(db) && q in db.posts && post.id == q.id && post.created == q.created
    requires post.author in UserIds(db.users) && (post.group.Some? ==> post.group.value in GroupIds(db.groups))
    ensures Valid(db.(posts := Replace(db.posts, q.id, post)))
  {
    var posts := Replace(db.posts, q.id, post);
    ReplaceCounted(db.posts, q, post, db.nextId, db.clock);
    ReplaceIds(db.posts, q, post);
    forall p | p in posts
      ensures p.author in UserIds(db.users) && (p.group.Some? ==> p.group.value in GroupIds(db.groups))
    {
      var i :| 0 <= i < |posts| && posts[i] == p;
      assert db.posts[i] in db.posts;
    }
  }

  lemma PostEditValid(db: Db, actor: Option<UserId>, id: PostId, form: Option<PostForm>)
    requires Valid(db) && Known(db, actor)
    ensures Valid(PostEdit(db, actor, id, form).0)
  {
    if PostEdit(db, actor, id, form).0 != db {
      var q := Find(db.posts, HasPostId(id)).value;
      ReplaceValid(db, q, Edited(q, form.value, actor.value));
    }
  }

  /** `add_comment`: 404 for an unknown post; a valid form adds one
      comment by the caller on that post; either way the caller is sent
      to the post page. */
  function AddComment(db: Db, actor: Option<UserId>, id: PostId, form: Option<CommentForm>): (r: (Db, Response<FormPage>))
    requires Valid(db) && Known(db, actor)
    ensures actor.None? ==> r == (db, LoginRedirect(CommentRoute(id)))
    ensures actor.Some? && id !in PostIds(db.posts) ==> r == (db, NotFound)
    ensures actor.Some? && id in PostIds(db.posts) ==> r.1 == Redirect(PostDetailRoute(id))
    ensures actor.Some? && id in PostIds(db.posts) && !(form.Some? && CommentFormValid(form.value)) ==> r.0 == db
    ensures actor.Some? && id in PostIds(db.posts) && form.Some? && CommentFormValid(form.value) ==>
      && r.0.users == db.users && r.0.groups == db.groups && r.0.posts == db.posts && r.0.follows == db.follows
      && |r.0.comments| == |db.comments| + 1 && r.0.comments[..|db.comments|] == db.comments
      && var c := r.0.comments[|db.comments|];
         c.post == id && c.author == actor.value && c.text == form.value.text
  {
    match actor
    case None => (db, LoginRedirect(CommentRoute(id)))
    case Some(u) =>
      if id !in PostIds(db.posts) then (db, NotFound)
      else if form.Some? && CommentFormValid(form.value) then
        var comment := Comment(db.nextId, id, u, form.value.text, db.clock);
        (db.(comments := db.comments + [comment], nextId := db.nextId + 1, clock := db.clock + 1),
         Redirect(PostDetailRoute(id)))
      else
        (db, Redirect(PostDetailRoute(id)))
  }

  lemma AddCommentValid(db: Db, actor: Option<UserId>, id: PostId, form: Option<CommentForm>)
    requires Valid(db) && Known(db, actor)
    ensures Valid(AddComment(db, actor, id, form).0)
  {
    var r := AddComment(db, actor, id, form).0;
    if r != db {
      var c := r.comments[|db.comments|];
      assert r.comments == db.comments + [c];
      AppendCounted(db.comments, c, CommentKey, db.nextId, r.nextId);
      AppendCounted(db.comments, c, CommentCreated, db.clock, r.clock);
    }
  }

  /** Two users with the same username are the same user. */
  lemma UsernamesIdentify(users: seq<User>)
    requires UsernamesUnique(users)
    ensures forall a, b :: a in users && b in users && a.username == b.username ==> a == b
  {
    forall a, b | a in users && b in users && a.username == b.username ensures a == b {
      var i :| 0 <= i < |users| && users[i] == a;
      var j :| 0 <= j < |users| && users[j] == b;
    }
  }

  /** `profile_follow`: 404 for an unknown username; following someone
      other than oneself adds the edge unless it is already there
      (`get_or_create`); the caller is sent to the author's profile. */
  function ProfileFollow(db: Db, actor: Option<UserId>, username: string): (r: (Db, Response<FormPage>))
    requires Valid(db) && Known(db, actor)
    ensures actor.None? ==> r == (db, LoginRedirect(FollowRoute(username)))
    ensures actor.Some? && (forall u :: u in db.users ==> u.username != username) ==> r == (db, NotFound)
    ensures forall a :: a in db.users && a.username == username && actor.Some? ==>
      && r.1 == Redirect(ProfileRoute(username))
      && r.0.users == db.users && r.0.groups == db.groups && r.0.posts == db.posts && r.0.comments == db.comments
      && (r.0 != db <==> a.id != actor.value && !Following(db.follows, actor.value, a.id))
      && (r.0 != db ==> r.0.follows == db.follows + [Follow(db.nextId, actor.value, a.id, db.clock)])
      && (Following(r.0.follows, actor.value, a.id) <==> a.id != actor.value)
  {
    match actor
    case None => (db, LoginRedirect(FollowRoute(username)))
    case Some(u) =>
      match Find(db.users, HasUsername(username))
      case None => (db, NotFound)
      case Some(author) =>
        UsernamesIdentify(db.users);
        if author.id != u && !Following(db.follows, u, author.id) then
          var edge := Follow(db.nextId, u, author.id, db.clock);
          (db.(follows := db.follows + [edge], nextId := db.nextId + 1, clock := db.clock + 1),
           Redirect(ProfileRoute(username)))
        else
          (db, Redirect(ProfileRoute(username)))
  }

  /** A new edge between a pair with no edge keeps the edges unique. */
  lemma AppendEdgeUnique(follows: seq<Follow>, edge: Follow)
    requires EdgesUnique(follows) && !Following(follows, edge.user, edge.author)
    ensures EdgesUnique(follows + [edge])
  {
    var r := follows + [edge];
    forall i, j | 0 <= i < j < |r| ensures DistinctPairs(r[i], r[j]) {
      if j == |follows| {
        assert r[i] in follows;
      } else {
        assert DistinctPairs(follows[i], follows[j]);
      }
    }
  }

  /** Storing a fresh edge between two distinct users with no edge yet keeps the store valid. */
  lemma AppendEdgeValid(db: Db, edge: Follow)
    requires Valid(db)
    requires edge == Follow(db.nextId, edge.user, edge.author, db.clock)
    requires edge.user != edge.author && edge.user in UserIds(db.users) && edge.author in UserIds(db.users)
    requires !Following(db.follows, edge.user, edge.author)
    ensures Valid(db.(follows := db.follows + [edge], nextId := db.nextId + 1, clock := db.clock + 1))
  {
    AppendCounted(db.follows, edge, FollowKey, db.nextId, db.nextId + 1);
    AppendCounted(db.follows, edge, FollowCreated, db.clock, db.clock + 1);
    AppendEdgeUnique(db.follows, edge);
  }

  lemma ProfileFollowValid(db: Db, actor: Option<UserId>, username: string)
    requires Valid(db) && Known(db, actor)
    ensures Valid(ProfileFollow(db, actor, username).0)
  {
    if actor.Some? && Find(db.users, HasUsername(username)).Some? {
      var author := Find(db.users, HasUsername(username)).value;
      if author.id != actor.value && !Following(db.follows, actor.value, author.id) {
        AppendEdgeValid(db, Follow(db.nextId, actor.value, author.id, db.clock));
      }
    }
  }

  /** `profile_unfollow`: 404 for an unknown username; otherwise every edge
      from the caller to that author is removed (none may exist) and the
      caller is sent to the author's profile. */
  function ProfileUnfollow(db: Db, actor: Option<UserId>, username: string): (r: (Db, Response<FormPage>))
    requires Valid(db) && Known(db, actor)
    ensures actor.None? ==> r == (db, LoginRedirect(UnfollowRoute(username)))
    ensures actor.Some? && (forall u :: u in db.users ==> u.username != username) ==> r == (db, NotFound)
    ensures forall a :: a in db.users && a.username == username && actor.Some? ==>
      && r.1 == Redirect(ProfileRoute(username))
      && r.0.users == db.users && r.0.groups == db.groups && r.0.posts == db.posts && r.0.comments == db.comments
      && r.0.nextId == db.nextId && r.0.clock == db.clock
      && (forall f :: f in r.0.follows <==> f in db.follows && !(f.user == actor.value && f.author == a.id))
      && !Following(r.0.follows, actor.value, a.id)
  {
    match actor
    case None => (db, LoginRedirect(UnfollowRoute(username)))
    case Some(u) =>
      match Find(db.users, HasUsername(username))
      case None => (db, NotFound)
      case Some(author) =>
        UsernamesIdentify(db.users);
        (db.(follows := Filter(db.follows, Not(IsEdge(u, author.id)))), Redirect(ProfileRoute(username)))
  }

  lemma ProfileUnfollowValid(db: Db, actor: Option<UserId>, username: string)
    requires Valid(db) && Known(db, actor)
    ensures Valid(ProfileUnfollow(db, actor, username).0)
  {
    var r := ProfileUnfollow(db, actor, username).0;
    if r != db {
      var author := Find(db.users, HasUsername(username)).value;
      var keep := Not(IsEdge(actor.value, author.id));
      assert r.follows == Filter(db.follows, keep);
      FilterCounted(db.follows, keep, FollowKey, db.nextId);
      FilterCounted(db.follows, keep, FollowCreated, db.clock);
      FilterPairwise(db.follows, keep, DistinctPairs);
    }
  }

  /** `delete_message`: 404 unless the caller wrote a post with that id;
      a POST deletes it (its comments cascade) and redirects to the index,
      any other method renders the confirmation page. */
  function DeleteMessage(db: Db, actor: Option<UserId>, id: PostId, isPost: bool): (r: (Db, Response<FormPage>))
    requires Valid(db) && Known(db, actor)
    ensures actor.None? ==> r == (db, LoginRedirect(DeleteRoute(id)))
    ensures actor.Some? && !(exists p :: p in db.posts && p.id == id && p.author == actor.value) ==> r == (db, NotFound)
    ensures actor.Some? && (exists p :: p in db.posts && p.id == id && p.author == actor.value) ==>
      r == if isPost then (DeletePost(db, id), Redirect(IndexRoute)) else (db, Render(DeleteConfirmPage))
  {
    match actor
    case None => (db, LoginRedirect(DeleteRoute(id)))
    case Some(u) =>
      match Find(db.posts, OwnedPost(id, u))
      case None => (db, NotFound)
      case Some(_) =>
        if isPost then (DeletePost(db, id), Redirect(IndexRoute))
        else (db, Render(DeleteConfirmPage))
  }

  lemma DeleteMessageValid(db: Db, actor: Option<UserId>, id: PostId, isPost: bool)
    requires Valid(db) && Known(db, actor)
    ensures Valid(DeleteMessage(db, actor, id, isPost).0)
  {
    DeletePostValid(db, id);
  }

  // ------------------------------------------------------------------ lemmas

  /** Following twice is following once: `get_or_create` never adds a second edge. */
  lemma FollowIdempotent(db: Db, actor: Option<UserId>, username: string)
    requires Valid(db) && Known(db, actor)
    ensures var once := ProfileFollow(db, actor, username).0;
      Valid(once) && Known(once, actor) && ProfileFollow(once, actor, username).0 == once
  {
    ProfileFollowValid(db, actor, username);
  }

  /** After following someone else, exactly one edge joins the caller to
      that author, however often they followed before. */
  lemma FollowMakesOneEdge(db: Db, actor: Option<UserId>, username: string, author: User)
    requires Valid(db) && Known(db, actor) && actor.Some?
    requires author in db.users && author.username == username && author.id != actor.value
    ensures var after := ProfileFollow(db, actor, username).0;
      EdgeCount(after.follows, actor.value, author.id) == 1
  {
    ProfileFollowValid(db, actor, username);
    EdgeCountOne(ProfileFollow(db, actor, username).0.follows, actor.value, author.id);
  }

  /** Unfollowing right after following restores the edges the store had
      before, when the caller did not follow that author yet. */
  lemma FollowThenUnfollow(db: Db, actor: Option<UserId>, username: string)
    requires Valid(db) && Known(db, actor)
    requires forall a :: a in db.users && a.username == username && actor.Some? ==> !Following(db.follows, actor.value, a.id)
    ensures var once := ProfileFollow(db, actor, username).0;
      Valid(once) && Known(once, actor) && ProfileUnfollow(once, actor, username).0.follows == db.follows
  {
    ProfileFollowValid(db, actor, username);
    var once := ProfileFollow(db, actor, username).0;
    if actor.Some? && Find(db.users, HasUsername(username)).Some? {
      var author := Find(db.users, HasUsername(username)).value;
      var keep := Not(IsEdge(actor.value, author.id));
      assert ProfileUnfollow(once, actor, username).0.follows == Filter(once.follows, keep);
      FilterKeepsAll(db.follows, keep);
      if once != db {
        var edge := Follow(db.nextId, actor.value, author.id, db.clock);
        FilterAppend(db.follows, [edge], keep);
        assert Filter([edge], keep) == [];
      }
    }
  }

  /** Unfollowing an author one does not follow changes nothing. */
  lemma UnfollowWithoutEdge(db: Db, actor: Option<UserId>, username: string)
    requires Valid(db) && Known(db, actor)
    requires forall a :: a in db.users && a.username == username && actor.Some? ==> !Following(db.follows, actor.value, a.id)
    ensures ProfileUnfollow(db, actor, username).0 == db
  {
    if actor.Some? && Find(db.users, HasUsername(username)).Some? {
      var author := Find(db.users, HasUsername(username)).value;
      FilterKeepsAll(db.follows, Not(IsEdge(actor.value, author.id)));
    }
  }

  /** After following an author, every post of theirs is in the caller's feed. */
  lemma FeedShowsFollowedAuthor(db: Db, actor: Option<UserId>, username: string, author: User)
    requires Valid(db) && Known(db, actor) && actor.Some?
    requires author in db.users && author.username == username && author.id != actor.value
    ensures var after := ProfileFollow(db, actor, username).0;
      Valid(after) && forall p :: p in db.posts && p.author == author.id ==> p in FeedListing(after, actor.value)
  {
    ProfileFollowValid(db, actor, username);
  }

  /** After unfollowing an author, none of their posts is in the caller's feed. */
  lemma FeedHidesUnfollowedAuthor(db: Db, actor: Option<UserId>, username: string, author: User)
    requires Valid(db) && Known(db, actor) && actor.Some?
    requires author in db.users && author.username == username
    ensures var after := ProfileUnfollow(db, actor, username).0;
      Valid(after) && forall p :: p in FeedListing(after, actor.value) ==> p.author != author.id
  {
    ProfileUnfollowValid(db, actor, username);
  }

  /** After following, the author's profile shows the caller as a follower,
      unless the caller is the author. */
  lemma FollowSetsFlag(db: Db, actor: Option<UserId>, username: string, author: User)
    requires Valid(db) && Known(db, actor) && actor.Some?
    requires author in db.users && author.username == username
    ensures var after := ProfileFollow(db, actor, username).0;
      && Valid(after)
      && var r := Profile(after, actor, username, None);
         r.Render? && (r.context.following <==> author.id != actor.value)
  {
    ProfileFollowValid(db, actor, username);
    UsernamesIdentify(db.users);
  }

  /** `posts_count` on the post page is the number of posts on its author's profile. */
  lemma PostsCountIsAuthorsPosts(db: Db, id: PostId)
    requires Valid(db) && id in PostIds(db.posts)
    ensures var r := PostDetail(db, id);
      r.Render? && r.context.postsCount == |AuthorListing(db, r.context.post.author)|
  {
    var post := Find(db.posts, HasPostId(id)).value;
    var author := Find(db.users, HasUserId(post.author)).value;
    UsernamesIdentify(db.users);
    FilterExtensional(db.posts, AuthorNamed(db.users, author.username), ByAuthor(post.author));
  }

  /** The first post on the first index page is the newest post of all. */
  lemma IndexStartsWithNewest(db: Db)
    requires Valid(db) && db.posts != []
    ensures var r := Index(db, None);
      r != [] && r[0] in db.posts && forall q :: q in db.posts ==> q.created <= r[0].created
  {
    var all := AllPosts(db);
    FirstPageStartsListing(all);
    forall q | q in db.posts ensures q.created <= all[0].created {
      var j :| 0 <= j < |all| && all[j] == q;
    }
  }

  /** A row appended to a table heads every newest-first listing that keeps it. */
  lemma {:induction false} AppendedHeadsListing(s: seq<Post>, p: Post, keep: Post -> bool)
    requires keep(p)
    ensures Reverse(Filter(s + [p], keep)) != [] && Reverse(Filter(s + [p], keep))[0] == p
  {
    FilterAppend(s, [p], keep);
    assert Filter([p], keep) == [p];
  }

  /** A post just created heads the index, its author's profile and, when
      it has one, its group's page. */
  lemma CreatedPostComesFirst(db: Db, actor: Option<UserId>, form: Option<PostForm>)
    requires Valid(db) && Known(db, actor) && actor.Some? && form.Some? && PostFormValid(db, form.value)
    ensures var after := PostCreate(db, actor, form).0;
      && Valid(after)
      && var p := after.posts[|db.posts|];
         && AllPosts(after)[0] == p
         && AuthorListing(after, actor.value)[0] == p
         && (p.group.Some? ==> GroupListing(after, p.group.value)[0] == p)
  {
    PostCreateValid(db, actor, form);
    var after := PostCreate(db, actor, form).0;
    var p := after.posts[|db.posts|];
    assert after.posts == db.posts + [p];
    AppendedHeadsListing(db.posts, p, ByAuthor(actor.value));
    if p.group.Some? {
      AppendedHeadsListing(db.posts, p, InGroup(p.group.value));
    }
  }

  /** Two groups with the same slug are the same group. */
  lemma SlugsIdentify(groups: seq<Group>)
    requires SlugsUnique(groups)
    ensures forall a, b :: a in groups && b in groups && a.slug == b.slug ==> a == b
  {
    forall a, b | a in groups && b in groups && a.slug == b.slug ensures a == b {
      var i :| 0 <= i < |groups| && groups[i] == a;
      var j :| 0 <= j < |groups| && groups[j] == b;
    }
  }

  /** With thirteen posts stored, the index serves ten on its first page
      and three on page 2. */
  lemma ThirteenPostsIndex(db: Db)
    requires Valid(db) && |db.posts| == 13
    ensures PageCount(|db.posts|) == 2
    ensures |Index(db, None)| == 10 && |Index(db, Some(2))| == 3
  {
    ThirteenItems(db.posts);
  }

  /** With thirteen posts in a group, its page serves ten on its first
      page and three on page 2. */
  lemma ThirteenPostsGroup(db: Db, group: Group)
    requires Valid(db) && group in db.groups && |GroupListing(db, group.id)| == 13
    ensures Find(db.groups, HasSlug(group.slug)) == Some(group)
    ensures PageCount(|GroupListing(db, group.id)|) == 2
    ensures var first := GroupPosts(db, group.slug, None);
      first.Render? && |first.context.pageObj| == 10
    ensures var second := GroupPosts(db, group.slug, Some(2));
      second.Render? && |second.context.pageObj| == 3
  {
    SlugsIdentify(db.groups);
    ThirteenItems(GroupListing(db, group.id));
  }

  /** With thirteen posts by one author, their profile serves ten on its
      first page and three on page 2. */
  lemma ThirteenPostsProfile(db: Db, viewer: Option<UserId>, author: User)
    requires Valid(db) && author in db.users && |AuthorListing(db, author.id)| == 13
    ensures Find(db.users, HasUsername(author.username)) == Some(author)
    ensures PageCount(|AuthorListing(db, author.id)|) == 2
    ensures var first := Profile(db, viewer, author.username, None);
      first.Render? && |first.context.pageObj| == 10
    ensures var second := Profile(db, viewer, author.username, Some(2));
      second.Render? && |second.context.pageObj| == 3
  {
    UsernamesIdentify(db.users);
    ThirteenItems(AuthorListing(db, author.id));
  }

  /** Every post of a followed author is served on some page of the feed. */
  lemma FollowIndexShowsFollowedPost(db: Db, actor: Option<UserId>, p: Post)
    requires Valid(db) && actor.Some? && p in db.posts && Following(db.follows, actor.value, p.author)
    ensures exists k: nat :: ValidPage(|FeedListing(db, actor.value)|, k) && p in FollowIndex(db, actor, Some(k)).context
  {
    var feed := FeedListing(db, actor.value);
    OnSomePage(feed, p);
    var k: nat :| ValidPage(|feed|, k) && p in Paginate(feed, Some(k));
    assert FollowIndex(db, actor, Some(k)) == Render(Paginate(feed, Some(k)));
  }

  /** A caller who follows nobody gets an empty feed. */
  lemma FollowIndexWithoutFollows(db: Db, actor: Option<UserId>)
    requires Valid(db) && actor.Some?
    requires forall f :: f in db.follows ==> f.user != actor.value
    ensures FollowIndex(db, actor, None) == Render([])
  {
  }
}
