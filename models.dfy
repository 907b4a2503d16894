/** The entities of `posts/models.py`: their fields, `__str__` and `Meta.ordering`. */
module Models {
  import opened Wrappers
  import opened Seqs

  type UserId = nat
  type GroupId = nat
  type PostId = nat
  type CommentId = nat
  type FollowId = nat

  /** An uploaded image, kept as the opaque path the storage backend returns. */
  datatype Image = Image(path: string)

  /** The identity collaborator's user: its key and its unique username. */
  datatype User = User(id: UserId, username: string)

  /** A community; `slug` is unique across groups. */
  datatype Group = Group(id: GroupId, title: string, slug: string, description: string, created: nat)

  /** A post: its author is required, its group and image optional. */
  datatype Post = Post(id: PostId, text: string, author: UserId, group: Option<GroupId>, image: Option<Image>, created: nat)

  /** A comment on a post. */
  datatype Comment = Comment(id: CommentId, post: PostId, author: UserId, text: string, created: nat)

  /** A follow edge: `user` receives `author`'s posts in their feed. */
  datatype Follow = Follow(id: FollowId, user: UserId, author: UserId, created: nat)

  /** How many characters of a post's text its string form shows. */
  const STR_LENGTH: nat := 15

  /** `str(post)`: `text[:15]`, the first fifteen characters of the text,
      or all of it when it is shorter. */
  function PostStr(p: Post): (s: string)
    ensures s <= p.text
    ensures |s| == if |p.text| < STR_LENGTH then |p.text| else STR_LENGTH
  {
    if |p.text| <= STR_LENGTH then p.text else p.text[..STR_LENGTH]
  }

  // Keys of the rows, used to state the tables' ordering invariants.
  function UserKey(u: User): nat { u.id }
  function GroupKey(g: Group): nat { g.id }
  function GroupCreated(g: Group): nat { g.created }
  function PostKey(p: Post): nat { p.id }
  function PostCreated(p: Post): nat { p.created }
  function CommentKey(c: Comment): nat { c.id }
  function CommentCreated(c: Comment): nat { c.created }
  function FollowKey(f: Follow): nat { f.id }
  function FollowCreated(f: Follow): nat { f.created }

  /** `Post.Meta.ordering = ("-created",)`. */
  ghost predicate PostsNewestFirst(ps: seq<Post>)
  {
    Descending(ps, PostCreated)
  }

  /** `Group.Meta.ordering = ("-created",)`. */
  ghost predicate GroupsNewestFirst(gs: seq<Group>)
  {
    Descending(gs, GroupCreated)
  }

  /** `Comment.Meta.ordering = ("created",)`. */
  ghost predicate CommentsOldestFirst(cs: seq<Comment>)
  {
    Ascending(cs, CommentCreated)
  }
}
