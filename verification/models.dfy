/**
 * `models.py`: the post record of the config-file copy, the `Posts` list
 * wrapper and the `Config` with its defaults. Datetimes are whole seconds.
 */
module Models {
  import opened Wrappers

  const TOP_LEVEL_POST_ID: string := "top_level_post_id"

  /** `metadata.get('top_level_post_id')`: the id of a post in both copies of the
      program, `None` when the parsed `data-ft` has no such key. */
  function MetadataId(metadata: map<string, string>): (id: Option<string>)
    ensures id.Some? <==> TOP_LEVEL_POST_ID in metadata
    ensures id.Some? ==> id.value == metadata[TOP_LEVEL_POST_ID]
  {
    if TOP_LEVEL_POST_ID in metadata then Some(metadata[TOP_LEVEL_POST_ID]) else None
  }

  /** A post as the page parser builds it; `metadata` is the parsed `data-ft` JSON,
      string values only. */
  datatype Post = Post(html: string, shortText: string, fullText: Option<string>,
                       parseDatetime: int, metadata: map<string, string>)
  {
    /** `Post.id`. */
    function Id(): Option<string> {
      MetadataId(metadata)
    }

    /** `Post.__eq__`: two posts are equal iff both lack an id or both carry the same id. */
    predicate Equals(other: Post)
      ensures Equals(other) <==>
                (TOP_LEVEL_POST_ID in metadata) == (TOP_LEVEL_POST_ID in other.metadata)
                && (TOP_LEVEL_POST_ID in metadata ==>
                      metadata[TOP_LEVEL_POST_ID] == other.metadata[TOP_LEVEL_POST_ID])
    {
      Id() == other.Id()
    }
  }

  /** The ids of a list of posts, position by position. */
  function Ids(s: seq<Post>): (ids: seq<Option<string>>)
    ensures |ids| == |s| && forall i :: 0 <= i < |s| ==> ids[i] == s[i].Id()
  {
    seq(|s|, i requires 0 <= i < |s| => s[i].Id())
  }

  /** `__eq__` ignores every field but the id. */
  lemma EqualsIgnoresContent(p: Post, h: string, st: string, ft: Option<string>, t: int)
    ensures p.Equals(Post(h, st, ft, t, p.metadata))
  {
  }

  /** `__eq__` is an equivalence relation, so `in` on a list of posts is well behaved. */
  lemma EqualsIsEquivalence(p: Post, q: Post, r: Post)
    ensures p.Equals(p)
    ensures p.Equals(q) ==> q.Equals(p)
    ensures p.Equals(q) && q.Equals(r) ==> p.Equals(r)
  {
  }

  /** `Posts`: a list of posts, grown in place by `<<`. */
  class Posts {
    var root: seq<Post>

    /** `Posts()`: an empty list. */
    constructor ()
      ensures root == []
    {
      root := [];
    }

    /** `len(posts)`. */
    function Len(): (n: nat)
      reads this
      ensures n == |root|
    {
      |root|
    }

    /** `posts[index]`, Python indexing: a negative index counts from the end;
        `None` stands for the `IndexError` raised outside `-len <= index < len`. */
    function At(index: int): (r: Option<Post>)
      reads this
      ensures r.Some? <==> -|root| <= index < |root|
      ensures 0 <= index < |root| ==> r == Some(root[index])
      ensures -|root| <= index < 0 ==> r == Some(root[|root| + index])
    {
      if 0 <= index < |root| then Some(root[index])
      else if -|root| <= index < 0 then Some(root[|root| + index])
      else None
    }

    /** `post in posts`: some element equals `p` by `__eq__`, that is, has its id. */
    predicate Contains(p: Post)
      reads this
      ensures Contains(p) <==> exists i :: 0 <= i < |root| && root[i].Equals(p)
    {
      p.Id() in Ids(root)
    }

    /** `posts << p`: appends `p`, one longer, `p` last, the rest unchanged. */
    method Append(p: Post)
      modifies this
      ensures root == old(root) + [p]
      ensures Len() == old(Len()) + 1 && At(-1) == Some(p)
      ensures forall i :: 0 <= i < old(Len()) ==> At(i) == old(At(i))
    {
      root := root + [p];
    }
  }

  const DEFAULT_WAIT_BEFORE_NEXT_UPDATE: int := 5  // minutes
  const DEFAULT_UPDATE_EVERY: int := 60            // minutes
  const DEFAULT_LINK_TEXT: string := "link"

  /** `Config`: the state the config-file copy keeps between runs. */
  class Config {
    var posts: Posts
    var waitBeforeNextUpdate: int    // minutes
    var lastUpdateDatetime: int      // seconds
    var updateEvery: int             // minutes
    var linkText: string

    /** `Config()` with every default. The default `last_update_datetime` is
        evaluated once, when the class is defined, as that moment minus
        `wait_before_next_update * 60 + 1` seconds. */
    constructor (classDefinedAt: int)
      ensures fresh(posts) && posts.root == []
      ensures waitBeforeNextUpdate == DEFAULT_WAIT_BEFORE_NEXT_UPDATE
      ensures lastUpdateDatetime == classDefinedAt - (DEFAULT_WAIT_BEFORE_NEXT_UPDATE * 60 + 1)
      ensures updateEvery == DEFAULT_UPDATE_EVERY
      ensures linkText == DEFAULT_LINK_TEXT
    {
      posts := new Posts();
      waitBeforeNextUpdate := DEFAULT_WAIT_BEFORE_NEXT_UPDATE;
      lastUpdateDatetime := classDefinedAt - (DEFAULT_WAIT_BEFORE_NEXT_UPDATE * 60 + 1);
      updateEvery := DEFAULT_UPDATE_EVERY;
      linkText := DEFAULT_LINK_TEXT;
    }
  }
}
