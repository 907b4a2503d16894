/** The database behind the handlers, as one object whose tables the
    handlers update in place.  Each method does what the matching
    function of `Views` or `Tables` describes and keeps the store valid. */
module Blog {
  import opened Wrappers
  import opened Seqs
  import opened Models
  import opened Tables
  import opened Views

  class Store {
    var users: seq<User>
    var groups: seq<Group>
    var posts: seq<Post>
    var comments: seq<Comment>
    var follows: seq<Follow>
    var nextId: nat
    var clock: nat

    /** The tables as one value. */
    function State(): Db
      reads this
    {
      Db(users, groups, posts, comments, follows, nextId, clock)
    }

    ghost predicate Valid()
      reads this
    {
      Tables.Valid(State())
    }

    /** An empty database. */
    constructor()
      ensures Valid() && State() == EmptyDb()
    {
      users, groups, posts, comments, follows := [], [], [], [], [];
      nextId, clock := 0, 0;
    }

    /** Adds a user unless the username is taken. */
    method RegisterUser(username: string) returns (id: Option<UserId>)
      requires Valid()
      modifies this
      ensures Valid() && (State(), id) == AddUser(old(State()), username)
    {
      ghost var spec := AddUser(State(), username);
      AddUserValid(State(), username);
      if Find(users, HasUsername(username)).Some? {
        id := None;
      } else {
        users := users + [User(nextId, username)];
        id := Some(nextId);
        nextId := nextId + 1;
      }
      assert State() == spec.0;
    }

    /** Adds a group unless the slug is taken. */
    method CreateGroup(title: string, slug: string, description: string) returns (id: Option<GroupId>)
      requires Valid()
      modifies this
      ensures Valid() && (State(), id) == AddGroup(old(State()), title, slug, description)
    {
      ghost var spec := AddGroup(State(), title, slug, description);
      AddGroupValid(State(), title, slug, description);
      if Find(groups, HasSlug(slug)).Some? {
        id := None;
      } else {
        groups := groups + [Group(nextId, title, slug, description, clock)];
        id := Some(nextId);
        nextId, clock := nextId + 1, clock + 1;
      }
      assert State() == spec.0;
    }

    /** `post_create`. */
    method PostCreate(actor: Option<UserId>, form: Option<PostForm>) returns (resp: Response<FormPage>)
      requires Valid() && Known(State(), actor)
      modifies this
      ensures Valid() && (State(), resp) == Views.PostCreate(old(State()), actor, form)
    {
      ghost var spec := Views.PostCreate(State(), actor, form);
      PostCreateValid(State(), actor, form);
      if actor.None? {
        return LoginRedirect(CreateRoute);
      }
      if form.Some? && PostFormValid(State(), form.value) {
        var author := Find(users, HasUserId(actor.value));
        posts := posts + [Post(nextId, form.value.text, actor.value, form.value.group, form.value.image, clock)];
        nextId, clock := nextId + 1, clock + 1;
        resp := Redirect(ProfileRoute(author.value.username));
        assert State() == spec.0;
      } else {
        resp := Render(PostFormPage(false));
      }
    }

    /** `post_edit`. */
    method PostEdit(actor: Option<UserId>, id: PostId, form: Option<PostForm>) returns (resp: Response<FormPage>)
      requires Valid() && Known(State(), actor)
      modifies this
      ensures Valid() && (State(), resp) == Views.PostEdit(old(State()), actor, id, form)
    {
      ghost var spec := Views.PostEdit(State(), actor, id, form);
      PostEditValid(State(), actor, id, form);
      if actor.None? {
        return LoginRedirect(EditRoute(id));
      }
      var post := Find(posts, HasPostId(id));
      if post.None? {
        resp := NotFound;
      } else if actor.value != post.value.author {
        resp := Redirect(PostDetailRoute(id));
      } else if form.Some? && PostFormValid(State(), form.value) {
        posts := Replace(posts, id, Edited(post.value, form.value, actor.value));
        resp := Redirect(PostDetailRoute(id));
        assert State() == spec.0;
      } else {
        resp := Render(PostFormPage(true));
      }
    }

    /** `add_comment`. */
    method AddComment(actor: Option<UserId>, id: PostId, form: Option<CommentForm>) returns (resp: Response<FormPage>)
      requires Valid() && Known(State(), actor)
      modifies this
      ensures Valid() && (State(), resp) == Views.AddComment(old(State()), actor, id, form)
    {
      ghost var spec := Views.AddComment(State(), actor, id, form);
      AddCommentValid(State(), actor, id, form);
      if actor.None? {
        return LoginRedirect(CommentRoute(id));
      }
      if id !in PostIds(posts) {
        return NotFound;
      }
      if form.Some? && CommentFormValid(form.value) {
        comments := comments + [Comment(nextId, id, actor.value, form.value.text, clock)];
        nextId, clock := nextId + 1, clock + 1;
      }
      resp := Redirect(PostDetailRoute(id));
      assert State() == spec.0;
    }

    /** `profile_follow`. */
    method ProfileFollow(actor: Option<UserId>, username: string) returns (resp: Response<FormPage>)
      requires Valid() && Known(State(), actor)
      modifies this
      ensures Valid() && (State(), resp) == Views.ProfileFollow(old(State()), actor, username)
    {
      ghost var spec := Views.ProfileFollow(State(), actor, username);
      ProfileFollowValid(State(), actor, username);
      if actor.None? {
        return LoginRedirect(FollowRoute(username));
      }
      var author := Find(users, HasUsername(username));
      if author.None? {
        return NotFound;
      }
      if author.value.id != actor.value && !Following(follows, actor.value, author.value.id) {
        follows := follows + [Follow(nextId, actor.value, author.value.id, clock)];
        nextId, clock := nextId + 1, clock + 1;
      }
      resp := Redirect(ProfileRoute(username));
      assert State() == spec.0;
    }

    /** `profile_unfollow`. */
    method ProfileUnfollow(actor: Option<UserId>, username: string) returns (resp: Response<FormPage>)
      requires Valid() && Known(State(), actor)
      modifies this
      ensures Valid() && (State(), resp) == Views.ProfileUnfollow(old(State()), actor, username)
    {
      ghost var spec := Views.ProfileUnfollow(State(), actor, username);
      ProfileUnfollowValid(State(), actor, username);
      if actor.None? {
        return LoginRedirect(UnfollowRoute(username));
      }
      var author := Find(users, HasUsername(username));
      if author.None? {
        return NotFound;
      }
      follows := Filter(follows, Not(IsEdge(actor.value, author.value.id)));
      resp := Redirect(ProfileRoute(username));
      assert State() == spec.0;
    }

    /** `delete_message`; `isPost` says whether the request is a POST. */
    method DeleteMessage(actor: Option<UserId>, id: PostId, isPost: bool) returns (resp: Response<FormPage>)
      requires Valid() && Known(State(), actor)
      modifies this
      ensures Valid() && (State(), resp) == Views.DeleteMessage(old(State()), actor, id, isPost)
    {
      DeleteMessageValid(State(), actor, id, isPost);
      if actor.None? {
        return LoginRedirect(DeleteRoute(id));
      }
      if Find(posts, OwnedPost(id, actor.value)).None? {
        return NotFound;
      }
      if isPost {
        DeletePost(id);
        resp := Redirect(IndexRoute);
      } else {
        resp := Render(DeleteConfirmPage);
      }
    }

    /** Deleting a post and, by `Comment.post`'s CASCADE, its comments. */
    method DeletePost(id: PostId)
      requires Valid()
      modifies this
      ensures Valid() && State() == Tables.DeletePost(old(State()), id)
    {
      ghost var spec := Tables.DeletePost(State(), id);
      DeletePostValid(State(), id);
      posts := Filter(posts, Not(HasPostId(id)));
      comments := Filter(comments, Not(OnPost(id)));
      assert State() == spec;
    }

    /** Deleting a user: every `on_delete=CASCADE` foreign key to the user
        removes its rows, and the comments on the removed posts go with them. */
    method DeleteUser(id: UserId)
      requires Valid()
      modifies this
      ensures Valid() && State() == Tables.DeleteUser(old(State()), id)
    {
      ghost var spec := Tables.DeleteUser(State(), id);
      DeleteUserValid(State(), id);
      var doomed := PostIds(Filter(posts, ByAuthor(id)));
      users := Filter(users, Not(HasUserId(id)));
      posts := Filter(posts, Not(ByAuthor(id)));
      comments := Filter(comments, CommentSurvives(id, doomed));
      follows := Filter(follows, Not(Touches(id)));
      assert State() == spec;
    }

    /** Deleting a group: `Post.group` is SET_NULL, so its posts stay
        without a group. */
    method DeleteGroup(id: GroupId)
      requires Valid()
      modifies this
      ensures Valid() && State() == Tables.DeleteGroup(old(State()), id)
    {
      ghost var spec := Tables.DeleteGroup(State(), id);
      DeleteGroupValid(State(), id);
      var before := posts;
      groups := Filter(groups, Not(HasGroupId(id)));
      posts := seq(|before|, i requires 0 <= i < |before| => Ungrouped(before[i], id));
      assert State() == spec;
    }
  }
}
