/** The store's tables as one value, the invariant every reachable store
    keeps (keys, uniqueness, referential integrity), and the `on_delete`
    rules of `posts/models.py` (CASCADE and SET_NULL). */
module Tables {
  import opened Wrappers
  import opened Seqs
  import opened Models

  /** The five tables, each in insertion order, with the counters that
      hand out row ids and `created` stamps. */
  datatype Db = Db(
    users: seq<User>,
    groups: seq<Group>,
    posts: seq<Post>,
    comments: seq<Comment>,
    follows: seq<Follow>,
    nextId: nat,
    clock: nat)

  function UserIds(users: seq<User>): set<UserId> { set u | u in users :: u.id }
  function GroupIds(groups: seq<Group>): set<GroupId> { set g | g in groups :: g.id }
  function PostIds(posts: seq<Post>): set<PostId> { set p | p in posts :: p.id }

  // Row selectors, the conditions of the handlers' `filter(...)` and `get(...)` calls.
  function HasUserId(id: UserId): User -> bool { (u: User) => u.id == id }
  function HasUsername(name: string): User -> bool { (u: User) => u.username == name }
  function HasGroupId(id: GroupId): Group -> bool { (g: Group) => g.id == id }
  function HasSlug(slug: string): Group -> bool { (g: Group) => g.slug == slug }
  function HasPostId(id: PostId): Post -> bool { (p: Post) => p.id == id }
  function ByAuthor(id: UserId): Post -> bool { (p: Post) => p.author == id }
  function InGroup(id: GroupId): Post -> bool { (p: Post) => p.group == Some(id) }
  function OnPost(id: PostId): Comment -> bool { (c: Comment) => c.post == id }
  function IsEdge(user: UserId, author: UserId): Follow -> bool { (f: Follow) => f.user == user && f.author == author }
  function Touches(id: UserId): Follow -> bool { (f: Follow) => f.user == id || f.author == id }
  function CommentSurvives(id: UserId, doomed: set<PostId>): Comment -> bool { (c: Comment) => c.author != id && c.post !in doomed }

  /** `user.follower.filter(author=author).exists()`. */
  function Following(follows: seq<Follow>, user: UserId, author: UserId): (b: bool)
    ensures b <==> exists f :: f in follows && f.user == user && f.author == author
  {
    var edges := Filter(follows, IsEdge(user, author));
    assert edges != [] ==> edges[0] in edges;
    edges != []
  }

  /** The number of (user, author) edges. */
  function EdgeCount(follows: seq<Follow>, user: UserId, author: UserId): nat
  {
    |Filter(follows, IsEdge(user, author))|
  }

  // ---------------------------------------------------------------- invariant

  /** Keys increase along the table and stay below the counter that hands out the next one. */
  ghost predicate Counted<T>(s: seq<T>, key: T -> nat, next: nat)
  {
    Ascending(s, key) && Below(s, key, next)
  }

  /** Row ids come from `nextId` and `created` stamps from `clock`, in insertion order. */
  ghost predicate KeysFresh(db: Db)
  {
    && Counted(db.users, UserKey, db.nextId)
    && Counted(db.groups, GroupKey, db.nextId) && Counted(db.groups, GroupCreated, db.clock)
    && Counted(db.posts, PostKey, db.nextId) && Counted(db.posts, PostCreated, db.clock)
    && Counted(db.comments, CommentKey, db.nextId) && Counted(db.comments, CommentCreated, db.clock)
    && Counted(db.follows, FollowKey, db.nextId) && Counted(db.follows, FollowCreated, db.clock)
  }

  function DistinctUsernames(a: User, b: User): bool { a.username != b.username }
  function DistinctSlugs(a: Group, b: Group): bool { a.slug != b.slug }
  function DistinctPairs(a: Follow, b: Follow): bool { a.user != b.user || a.author != b.author }

  /** Usernames are unique (enforced by the identity collaborator). */
  ghost predicate UsernamesUnique(users: seq<User>)
  {
    Pairwise(users, DistinctUsernames)
  }

  /** `Group.slug` is declared `unique=True`. */
  ghost predicate SlugsUnique(groups: seq<Group>)
  {
    Pairwise(groups, DistinctSlugs)
  }

  /** At most one edge per (user, author) pair. */
  ghost predicate EdgesUnique(follows: seq<Follow>)
  {
    Pairwise(follows, DistinctPairs)
  }

  /** Nobody follows themselves. */
  ghost predicate NoSelfFollow(follows: seq<Follow>)
  {
    forall f :: f in follows ==> f.user != f.author
  }

  /** Referential integrity: every foreign key names an existing row
      (a post's group may be null). */
  ghost predicate Integrity(db: Db)
  {
    && (forall p :: p in db.posts ==> p.author in UserIds(db.users))
    && (forall p :: p in db.posts && p.group.Some? ==> p.group.value in GroupIds(db.groups))
    && (forall c :: c in db.comments ==> c.post in PostIds(db.posts) && c.author in UserIds(db.users))
    && (forall f :: f in db.follows ==> f.user in UserIds(db.users) && f.author in UserIds(db.users))
  }

  /** The invariant of every store the handlers can reach. */
  ghost predicate Valid(db: Db)
  {
    && KeysFresh(db)
    && UsernamesUnique(db.users)
    && SlugsUnique(db.groups)
    && EdgesUnique(db.follows)
    && NoSelfFollow(db.follows)
    && Integrity(db)
  }

  /** The store with no rows. */
  function EmptyDb(): (db: Db)
    ensures Valid(db)
    ensures db.users == [] && db.posts == [] && db.groups == [] && db.comments == [] && db.follows == []
  {
    Db([], [], [], [], [], 0, 0)
  }

  // ------------------------------------------------------------ helper lemmas

  lemma FilterCounted<T(!new)>(s: seq<T>, keep: T -> bool, key: T -> nat, next: nat)
    requires Counted(s, key, next)
    ensures Counted(Filter(s, keep), key, next)
  {
    FilterAscending(s, keep, key);
  }

  lemma AppendCounted<T>(s: seq<T>, x: T, key: T -> nat, next: nat, bound: nat)
    requires Counted(s, key, next) && key(x) == next && next < bound
    ensures Counted(s + [x], key, bound)
  {
    assert forall y :: y in s + [x] ==> y in s || y == x;
  }

  /** In a table with ascending keys, a key names at most one row. */
  lemma KeyNamesOneRow<T>(s: seq<T>, key: T -> nat, x: T, y: T)
    requires Ascending(s, key) && x in s && y in s && key(x) == key(y)
    ensures x == y
  {
    var i :| 0 <= i < |s| && s[i] == x;
    var j :| 0 <= j < |s| && s[j] == y;
    assert i == j;
  }

  /** With unique pairs, no edge before or after position `i` joins the pair of edge `i`. */
  lemma NoOtherEdge(follows: seq<Follow>, i: nat)
    requires EdgesUnique(follows) && i < |follows|
    ensures forall g :: g in follows[..i] ==> !IsEdge(follows[i].user, follows[i].author)(g)
    ensures forall g :: g in follows[i + 1..] ==> !IsEdge(follows[i].user, follows[i].author)(g)
  {
    forall g | g in follows[..i] ensures !IsEdge(follows[i].user, follows[i].author)(g) {
      var k :| 0 <= k < i && follows[k] == g;
      assert DistinctPairs(follows[k], follows[i]);
    }
    forall g | g in follows[i + 1..] ensures !IsEdge(follows[i].user, follows[i].author)(g) {
      var k :| i < k < |follows| && follows[k] == g;
      assert DistinctPairs(follows[i], follows[k]);
    }
  }

  /** An edge that exists is the only one of its pair. */
  lemma {:induction false} EdgeCountOne(follows: seq<Follow>, user: UserId, author: UserId)
    requires EdgesUnique(follows)
    requires Following(follows, user, author)
    ensures EdgeCount(follows, user, author) == 1
  {
    var f :| f in follows && f.user == user && f.author == author;
    var i :| 0 <= i < |follows| && follows[i] == f;
    var edge := IsEdge(user, author);
    assert follows == follows[..i] + [f] + follows[i + 1..];
    FilterAppend(follows[..i] + [f], follows[i + 1..], edge);
    FilterAppend(follows[..i], [f], edge);
    NoOtherEdge(follows, i);
    FilterNone(follows[..i], edge);
    FilterNone(follows[i + 1..], edge);
    assert Filter([f], edge) == [f];
  }

  // -------------------------------------------------------------- rows added

  /** Sign-up through the identity collaborator: a new user with a fresh
      id, refused when the username is taken. */
  function AddUser(db: Db, username: string): (r: (Db, Option<UserId>))
    requires Valid(db)
    ensures r.1.None? <==> exists u :: u in db.users && u.username == username
    ensures r.1.None? ==> r.0 == db
    ensures r.1.Some? ==> r.1.value !in UserIds(db.users)
                          && r.0 == db.(users := db.users + [User(r.1.value, username)], nextId := r.0.nextId)
  {
    if Find(db.users, HasUsername(username)).Some? then (db, None)
    else (db.(users := db.users + [User(db.nextId, username)], nextId := db.nextId + 1), Some(db.nextId))
  }

  lemma AddUserValid(db: Db, username: string)
    requires Valid(db)
    ensures Valid(AddUser(db, username).0)
  {
    var r := AddUser(db, username).0;
    if r != db {
      AppendCounted(db.users, User(db.nextId, username), UserKey, db.nextId, r.nextId);
      assert UserIds(db.users) <= UserIds(r.users);
    }
  }

  /** Creating a group (through the admin site): refused when the slug is
      already taken, since `slug` is `unique=True`. */
  function AddGroup(db: Db, title: string, slug: string, description: string): (r: (Db, Option<GroupId>))
    requires Valid(db)
    ensures r.1.None? <==> exists g :: g in db.groups && g.slug == slug
    ensures r.1.None? ==> r.0 == db
    ensures r.1.Some? ==> r.1.value !in GroupIds(db.groups)
                          && r.0.groups == db.groups + [Group(r.1.value, title, slug, description, db.clock)]
                          && r.0.users == db.users && r.0.posts == db.posts
                          && r.0.comments == db.comments && r.0.follows == db.follows
  {
    if Find(db.groups, HasSlug(slug)).Some? then (db, None)
    else
      var g := Group(db.nextId, title, slug, description, db.clock);
      (db.(groups := db.groups + [g], nextId := db.nextId + 1, clock := db.clock + 1), Some(g.id))
  }

  lemma AddGroupValid(db: Db, title: string, slug: string, description: string)
    requires Valid(db)
    ensures Valid(AddGroup(db, title, slug, description).0)
  {
    var r := AddGroup(db, title, slug, description).0;
    if r != db {
      var g := Group(db.nextId, title, slug, description, db.clock);
      AppendCounted(db.groups, g, GroupKey, db.nextId, r.nextId);
      AppendCounted(db.groups, g, GroupCreated, db.clock, r.clock);
      assert GroupIds(db.groups) <= GroupIds(r.groups);
    }
  }

  // --------------------------------------------------------- on_delete rules

  /** Deleting a post; `Comment.post` is CASCADE, so its comments go too. */
  function DeletePost(db: Db, id: PostId): (r: Db)
    ensures forall p :: p in r.posts <==> p in db.posts && p.id != id
    ensures forall c :: c in r.comments <==> c in db.comments && c.post != id
    ensures r.users == db.users && r.groups == db.groups && r.follows == db.follows
    ensures r.nextId == db.nextId && r.clock == db.clock
  {
    db.(posts := Filter(db.posts, Not(HasPostId(id))),
        comments := Filter(db.comments, Not(OnPost(id))))
  }

  /** Referential integrity survives the deletion of a post. */
  lemma DeletePostValid(db: Db, id: PostId)
    requires Valid(db)
    ensures Valid(DeletePost(db, id))
  {
    var r := DeletePost(db, id);
    FilterCounted(db.posts, Not(HasPostId(id)), PostKey, db.nextId);
    FilterCounted(db.posts, Not(HasPostId(id)), PostCreated, db.clock);
    FilterCounted(db.comments, Not(OnPost(id)), CommentKey, db.nextId);
    FilterCounted(db.comments, Not(OnPost(id)), CommentCreated, db.clock);
    forall c | c in r.comments ensures c.post in PostIds(r.posts) {
      var p :| p in db.posts && p.id == c.post;
      assert p in r.posts;
    }
  }

  /** Deleting a user. `Post.author`, `Comment.author`, `Follow.user` and
      `Follow.author` are CASCADE: their posts, their comments, the
      comments on their posts and every edge touching them go too. */
  function DeleteUser(db: Db, id: UserId): (r: Db)
    ensures forall u :: u in r.users <==> u in db.users && u.id != id
    ensures forall p :: p in r.posts <==> p in db.posts && p.author != id
    ensures forall c :: c in r.comments ==> c in db.comments && c.author != id
    ensures forall f :: f in r.follows <==> f in db.follows && f.user != id && f.author != id
    ensures r.groups == db.groups && r.nextId == db.nextId && r.clock == db.clock
  {
    var doomed := PostIds(Filter(db.posts, ByAuthor(id)));
    db.(users := Filter(db.users, Not(HasUserId(id))),
        posts := Filter(db.posts, Not(ByAuthor(id))),
        comments := Filter(db.comments, CommentSurvives(id, doomed)),
        follows := Filter(db.follows, Not(Touches(id))))
  }

  /** Keys, uniqueness and the no-self-follow rule survive the deletion of a user. */
  lemma DeleteUserKeys(db: Db, id: UserId)
    requires Valid(db)
    ensures var r := DeleteUser(db, id);
      KeysFresh(r) && UsernamesUnique(r.users) && SlugsUnique(r.groups)
      && EdgesUnique(r.follows) && NoSelfFollow(r.follows)
  {
    var doomed := PostIds(Filter(db.posts, ByAuthor(id)));
    FilterCounted(db.users, Not(HasUserId(id)), UserKey, db.nextId);
    FilterCounted(db.posts, Not(ByAuthor(id)), PostKey, db.nextId);
    FilterCounted(db.posts, Not(ByAuthor(id)), PostCreated, db.clock);
    FilterCounted(db.comments, CommentSurvives(id, doomed), CommentKey, db.nextId);
    FilterCounted(db.comments, CommentSurvives(id, doomed), CommentCreated, db.clock);
    FilterCounted(db.follows, Not(Touches(id)), FollowKey, db.nextId);
    FilterCounted(db.follows, Not(Touches(id)), FollowCreated, db.clock);
    FilterPairwise(db.users, Not(HasUserId(id)), DistinctUsernames);
    FilterPairwise(db.follows, Not(Touches(id)), DistinctPairs);
  }

  /** A comment survives the deletion of a user exactly when neither it
      nor its post was written by them. */
  lemma DeleteUserComments(db: Db, id: UserId)
    requires Valid(db)
    ensures forall c :: c in DeleteUser(db, id).comments <==>
      c in db.comments && c.author != id && c.post in PostIds(DeleteUser(db, id).posts)
  {
    var r := DeleteUser(db, id);
    var doomed := PostIds(Filter(db.posts, ByAuthor(id)));
    forall c | c in db.comments
      ensures c in r.comments <==> c.author != id && c.post in PostIds(r.posts)
    {
      if c.post in doomed {
        var q :| q in Filter(db.posts, ByAuthor(id)) && q.id == c.post;
        if p :| p in r.posts && p.id == c.post {
          KeyNamesOneRow(db.posts, PostKey, p, q);
        }
      } else {
        var p :| p in db.posts && p.id == c.post;
        assert p !in Filter(db.posts, ByAuthor(id));
        assert p in r.posts;
      }
    }
  }

  /** Referential integrity survives the deletion of a user. */
  lemma DeleteUserValid(db: Db, id: UserId)
    requires Valid(db)
    ensures Valid(DeleteUser(db, id))
  {
    var r := DeleteUser(db, id);
    DeleteUserKeys(db, id);
    DeleteUserComments(db, id);
    forall p | p in r.posts ensures p.author in UserIds(r.users) {
      var u :| u in db.users && u.id == p.author;
      assert u in r.users;
    }
    forall p | p in r.posts && p.group.Some? ensures p.group.value in GroupIds(r.groups) {
    }
    forall c | c in r.comments ensures c.author in UserIds(r.users) {
      var u :| u in db.users && u.id == c.author;
      assert u in r.users;
    }
    forall f | f in r.follows ensures f.user in UserIds(r.users) && f.author in UserIds(r.users) {
      var u :| u in db.users && u.id == f.user;
      var v :| v in db.users && v.id == f.author;
      assert u in r.users && v in r.users;
    }
  }

  /** A post with its group set to null. */
  function Ungrouped(p: Post, id: GroupId): Post
  {
    if p.group == Some(id) then p.(group := None) else p
  }

  /** Deleting a group. `Post.group` is SET_NULL: the group's posts stay,
      with no group. */
  function DeleteGroup(db: Db, id: GroupId): (r: Db)
    ensures forall g :: g in r.groups <==> g in db.groups && g.id != id
    ensures |r.posts| == |db.posts|
    ensures forall i :: 0 <= i < |r.posts| ==>
      r.posts[i] == db.posts[i].(group := if db.posts[i].group == Some(id) then None else db.posts[i].group)
    ensures forall i :: 0 <= i < |r.posts| && db.posts[i].group != Some(id) ==> r.posts[i] == db.posts[i]
    ensures r.users == db.users && r.comments == db.comments && r.follows == db.follows
    ensures r.nextId == db.nextId && r.clock == db.clock
  {
    db.(groups := Filter(db.groups, Not(HasGroupId(id))),
        posts := seq(|db.posts|, i requires 0 <= i < |db.posts| => Ungrouped(db.posts[i], id)))
  }

  /** Every post after a group deletion is a post from before with its
      group possibly cleared, and every post from before is still there. */
  lemma DeleteGroupPosts(db: Db, id: GroupId)
    ensures forall p :: p in DeleteGroup(db, id).posts ==> exists q :: q in db.posts && p == Ungrouped(q, id)
    ensures forall q :: q in db.posts ==> Ungrouped(q, id) in DeleteGroup(db, id).posts
  {
    var r := DeleteGroup(db, id);
    forall p | p in r.posts ensures exists q :: q in db.posts && p == Ungrouped(q, id) {
      var i :| 0 <= i < |r.posts| && r.posts[i] == p;
      assert db.posts[i] in db.posts;
    }
    forall q | q in db.posts ensures Ungrouped(q, id) in r.posts {
      var i :| 0 <= i < |db.posts| && db.posts[i] == q;
      assert r.posts[i] == Ungrouped(q, id);
    }
  }

  lemma DeleteGroupKeys(db: Db, id: GroupId)
    requires Valid(db)
    ensures KeysFresh(DeleteGroup(db, id)) && SlugsUnique(DeleteGroup(db, id).groups)
  {
    var r := DeleteGroup(db, id);
    FilterCounted(db.groups, Not(HasGroupId(id)), GroupKey, db.nextId);
    FilterCounted(db.groups, Not(HasGroupId(id)), GroupCreated, db.clock);
    FilterPairwise(db.groups, Not(HasGroupId(id)), DistinctSlugs);
    DeleteGroupPosts(db, id);
    assert Ascending(r.posts, PostKey) && Ascending(r.posts, PostCreated) by {
      forall i, j | 0 <= i < j < |r.posts|
        ensures PostKey(r.posts[i]) < PostKey(r.posts[j]) && PostCreated(r.posts[i]) < PostCreated(r.posts[j])
      {
      }
    }
  }

  /** Referential integrity survives the deletion of a group. */
  lemma DeleteGroupValid(db: Db, id: GroupId)
    requires Valid(db)
    ensures Valid(DeleteGroup(db, id))
  {
    var r := DeleteGroup(db, id);
    DeleteGroupKeys(db, id);
    DeleteGroupPosts(db, id);
    forall p | p in r.posts ensures p.author in UserIds(r.users) {
      var q :| q in db.posts && p == Ungrouped(q, id);
    }
    forall p | p in r.posts && p.group.Some? ensures p.group.value in GroupIds(r.groups) {
      var q :| q in db.posts && p == Ungrouped(q, id);
      var g :| g in db.groups && g.id == p.group.value;
      assert g in r.groups;
    }
    forall c | c in r.comments ensures c.post in PostIds(r.posts) {
      var q :| q in db.posts && q.id == c.post;
      assert Ungrouped(q, id) in r.posts;
    }
  }
}
