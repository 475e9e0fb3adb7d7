/** The mutations of the post resolver over an in-memory post table. */
module PostResolver {
  import opened Common
  import opened Context
  import opened Middleware
  import opened PostQueries

  class PostStore {
    /** The post table, in insertion order. */
    var posts: seq<Post>
    /** The next value of the serial primary-key sequence. */
    var nextId: int

    /** Ids are positive serial values below `nextId`, and no two rows share one. */
    ghost predicate Valid()
      reads this
    {
      && nextId >= 1
      && (forall i :: 0 <= i < |posts| ==> 1 <= posts[i].id < nextId)
      && UniqueIds(posts)
    }

    constructor ()
      ensures Valid() && posts == []
    {
      posts := [];
      nextId := 1;
    }

    /**
     * `createPost` behind `isAuth`: without a truthy session user id the
     * guard throws and no row is written; otherwise exactly one row is
     * appended, carrying the input's title and text and the session's user
     * as creator, and that row is returned.
     */
    method CreatePost(context: Session, input: PostInput, now: int) returns (r: AuthResult<Post>)
      requires Valid()
      modifies this
      ensures Valid()
      ensures !HasUserId(context) ==>
                r == Thrown(NotAuthenticated) && posts == old(posts) && nextId == old(nextId)
      ensures HasUserId(context) ==>
                && r.Next?
                && r.value == Post(old(nextId), now, input.title, input.text, context.userId.value)
                && FindPost(old(posts), r.value.id).None?
                && posts == old(posts) + [r.value]
    {
      var post := Post(nextId, now, input.title, input.text, UserIdOf(context));
      r := IsAuth(context, () => post);
      if r.Next? {
        assert forall p :: p in posts ==> p.id != post.id;
        posts := posts + [post];
        nextId := nextId + 1;
        assert UniqueIds(posts) by {
          forall i, j | 0 <= i < j < |posts| ensures posts[i].id != posts[j].id {
            if j == |posts| - 1 {
              assert posts[i] == old(posts)[i];
            } else {
              assert posts[i] == old(posts)[i] && posts[j] == old(posts)[j];
            }
          }
        }
      }
    }

    /**
     * `updatePost`: an absent title leaves the table alone; a supplied one,
     * the empty string included, replaces the title of the row with that id
     * and nothing else.
     */
    method UpdatePost(id: int, title: Option<string>)
      requires Valid()
      modifies this`posts
      ensures Valid()
      ensures title.None? ==> posts == old(posts)
      ensures title.Some? ==> posts == WithTitle(old(posts), id, title.value)
    {
      if title.Some? {
        posts := WithTitle(posts, id, title.value);
      }
    }

    /** `deletePost`: afterwards no row has that id; the answer is true either way. */
    method DeletePost(id: int) returns (ok: bool)
      requires Valid()
      modifies this`posts
      ensures Valid()
      ensures ok
      ensures posts == WithoutPost(old(posts), id)
      ensures FindPost(posts, id).None?
    {
      WithoutPostUnique(posts, id);
      posts := WithoutPost(posts, id);
      ok := true;
    }
  }
}
