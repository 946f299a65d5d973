/**
 * The root `facebook2telegram.py`: the copy that keeps its state in a `Config`
 * (the known posts, the time of the last update, the link text) and sends only
 * the posts found by the current run, oldest first, with no sent flag.
 *
 * The browser is a sequence of pages of parsed posts, the Telegram bot is the
 * outcome oracle of module Delivery, and `datetime.now()` is an integer number
 * of seconds passed in by the caller.
 */
module ConfigSync {
  import opened Wrappers
  import opened Pagination
  import opened Sync
  import opened Delivery
  import opened Models

  /** `can_update`: at least `60 * wait` seconds have passed since the last update. */
  predicate CanUpdate(now: int, lastUpdate: int, waitMinutes: int) {
    now - lastUpdate >= 60 * waitMinutes
  }

  /** A config with the default `last_update_datetime` may update at once: the
      default lies one second beyond the default wait. */
  lemma FreshConfigCanUpdate(classDefinedAt: int, now: int)
    requires classDefinedAt <= now
    ensures CanUpdate(now, classDefinedAt - (DEFAULT_WAIT_BEFORE_NEXT_UPDATE * 60 + 1),
                      DEFAULT_WAIT_BEFORE_NEXT_UPDATE)
  {
  }

  /** The posts `get_new_posts(max_posts)` finds when `known` are already in the
      config: the stream up to, not including, the first post whose id is known. */
  function NewPosts(known: seq<Post>, feed: seq<seq<Post>>, maxPosts: Option<int>): (r: seq<Post>)
    ensures var s := Stream(feed, Budget(maxPosts));
            |r| <= |s| && r == s[..|r|]
    ensures StopsAtFirstSeen(Ids(Stream(feed, Budget(maxPosts))), Ids(known), |r|)
  {
    var s := Stream(feed, Budget(maxPosts));
    NewCountStopsAtFirstSeen(Ids(s), Ids(known));
    s[..NewCount(Ids(s), Ids(known))]
  }

  lemma IdsAppend(a: seq<Post>, b: seq<Post>)
    ensures Ids(a + b) == Ids(a) + Ids(b)
  {
  }

  lemma IdsPrefix(s: seq<Post>, m: nat)
    requires m <= |s|
    ensures Ids(s[..m]) == Ids(s)[..m]
  {
  }

  /** One step of the loop of `get_new_posts`, after `m` posts were appended: the
      next post is known iff the run stops there. */
  lemma CollectStep(known: seq<Post>, s: seq<Post>, m: nat)
    requires m < |s| && m <= NewCount(Ids(s), Ids(known))
    ensures s[m].Id() in Ids(known + s[..m]) <==> m == NewCount(Ids(s), Ids(known))
    ensures s[..m + 1] == s[..m] + [s[m]]
    ensures known + s[..m + 1] == known + s[..m] + [s[m]]
  {
    IdsAppend(known, s[..m]);
    IdsPrefix(s, m);
    NewCountStep(Ids(s), Ids(known), m);
  }

  /** The new posts bring no id twice into a list of known posts with distinct ids. */
  lemma NewPostsIdsDistinct(known: seq<Post>, feed: seq<seq<Post>>, maxPosts: Option<int>)
    requires Distinct(Ids(known))
    ensures Distinct(Ids(known + NewPosts(known, feed, maxPosts)))
  {
    var s := Stream(feed, Budget(maxPosts));
    NoDuplicateIds(Ids(s), Ids(known));
    IdsAppend(known, NewPosts(known, feed, maxPosts));
    IdsPrefix(s, NewCount(Ids(s), Ids(known)));
  }

  /** A second run over the same feed finds no new post, whatever its budget. */
  lemma NewPostsIdempotent(known: seq<Post>, feed: seq<seq<Post>>, m1: Option<int>, m2: Option<int>)
    ensures NewPosts(known + NewPosts(known, feed, m1), feed, m2) == []
  {
    var s1 := Stream(feed, Budget(m1));
    var s2 := Stream(feed, Budget(m2));
    var n := NewCount(Ids(s1), Ids(known));
    var found := s1[..n];
    assert found == NewPosts(known, feed, m1);
    IdsAppend(known, found);
    IdsPrefix(s1, n);
    if Flatten(feed) != [] {
      assert s1[0] == s2[0] == Flatten(feed)[0];
      SecondRunInsertsNothing(Ids(s1), Ids(known), Ids(s2));
    }
    assert NewCount(Ids(s2), Ids(known + found)) == 0;
  }

  /** The text sent for one post: its short text and a markdown link to it. */
  function Render(p: Post, linkText: string): string {
    MessageText(p.shortText, linkText, PostUrl(p.Id()))
  }

  /** The texts sent for `reversed(posts)`, one per post. */
  function RenderReversed(ps: seq<Post>, linkText: string): (ms: seq<string>)
    ensures |ms| == |ps|
  {
    if ps == [] then [] else RenderReversed(ps[1..], linkText) + [Render(ps[0], linkText)]
  }

  /** The `j`-th text sent is for the `j`-th post from the end: the last post
      found, the oldest on the newest-first feed, goes first, so posts reach the
      channel in the order they were published. */
  lemma {:induction false} RenderReversedAt(ps: seq<Post>, linkText: string, j: nat)
    requires j < |ps|
    ensures RenderReversed(ps, linkText)[j] == Render(ps[|ps| - 1 - j], linkText)
  {
    if j < |ps| - 1 {
      RenderReversedAt(ps[1..], linkText, j);
    }
  }

  /** Sending one more post, from the end towards the front. */
  lemma RenderReversedStep(ps: seq<Post>, linkText: string, i: nat)
    requires i < |ps|
    ensures RenderReversed(ps[i..], linkText) == RenderReversed(ps[i + 1..], linkText) + [Render(ps[i], linkText)]
  {
    assert ps[i..][1..] == ps[i + 1..];
  }

  /** `FB2Telegram`: the sync controller and the sender over one config. */
  class FB2Telegram {
    var config: Config

    /** `__init__` after `load_config` produced `config`. */
    constructor (config: Config)
      ensures this.config == config
    {
      this.config := config;
    }

    /** `get_new_posts(max_posts)`: collects the new posts, then sets
        `last_update_datetime` to `now`. */
    method GetNewPosts(feed: seq<seq<Post>>, maxPosts: Option<int>, now: int) returns (newPosts: Posts)
      requires |feed| > 0
      modifies config, config.posts
      ensures fresh(newPosts)
      ensures newPosts.root == NewPosts(old(config.posts.root), feed, maxPosts)
      ensures config.posts == old(config.posts)
      ensures config.posts.root == old(config.posts.root) + newPosts.root
      ensures config.lastUpdateDatetime == now
      ensures config.waitBeforeNextUpdate == old(config.waitBeforeNextUpdate)
      ensures config.updateEvery == old(config.updateEvery)
      ensures config.linkText == old(config.linkText)
    {
      newPosts := CollectNewPosts(feed, maxPosts);
      config.lastUpdateDatetime := now;
    }

    /** The loop of `get_new_posts`: appends each streamed post to `config.posts`
        and to a fresh list until one is already in `config.posts`. */
    method CollectNewPosts(feed: seq<seq<Post>>, maxPosts: Option<int>) returns (newPosts: Posts)
      requires |feed| > 0
      modifies config.posts
      ensures fresh(newPosts)
      ensures newPosts.root == NewPosts(old(config.posts.root), feed, maxPosts)
      ensures config.posts.root == old(config.posts.root) + newPosts.root
    {
      var known := config.posts;
      ghost var known0 := known.root;
      ghost var s := Stream(feed, Budget(maxPosts));
      ghost var n := NewCount(Ids(s), Ids(known0));
      newPosts := new Posts();
      var walker := new FeedWalker(feed, maxPosts);
      while true
        invariant fresh(walker) && walker.Valid() && fresh(newPosts) && !walker.finished
        invariant |walker.Yielded()| <= n <= |s| && walker.Yielded() == s[..|walker.Yielded()|]
        invariant newPosts.root == walker.Yielded()
        invariant known.root == known0 + newPosts.root
        decreases |s| - |walker.Yielded()|
      {
        var stop := CollectOne(walker, known, newPosts, s, known0);
        if stop {
          return;
        }
      }
    }

    /** One turn of the loop of `get_new_posts`: the next post of the feed is
        appended to the known posts and to the new posts, unless the feed is
        exhausted or the post is known, which ends the run. */
    method CollectOne(walker: FeedWalker<Post>, known: Posts, newPosts: Posts,
                      ghost s: seq<Post>, ghost known0: seq<Post>) returns (stop: bool)
      requires walker.Valid() && !walker.finished && known != newPosts
      requires s == Stream(walker.pages, walker.budget)
      requires |walker.Yielded()| <= NewCount(Ids(s), Ids(known0))
      requires walker.Yielded() == s[..|walker.Yielded()|]
      requires newPosts.root == walker.Yielded() && known.root == known0 + newPosts.root
      modifies walker, known, newPosts
      ensures walker.Valid() && walker.Yielded() == s[..|walker.Yielded()|]
      ensures stop ==> newPosts.root == s[..NewCount(Ids(s), Ids(known0))]
      ensures stop ==> known.root == known0 + newPosts.root
      ensures !stop ==> && !walker.finished && newPosts.root == walker.Yielded()
                        && known.root == known0 + newPosts.root
                        && |old(walker.Yielded())| < |walker.Yielded()| <= NewCount(Ids(s), Ids(known0))
    {
      ghost var m := |walker.Yielded()|;
      var p := walker.Next();
      if p.None? {
        return true;
      }
      assert m < |s| && walker.Yielded() == s[..m] + [p.value];
      CollectStep(known0, s, m);
      if known.Contains(p.value) {
        return true;
      }
      known.Append(p.value);
      newPosts.Append(p.value);
      return false;
    }

    /** `send_posts_to_telegram(posts)`: one attempt per post, oldest first; a
        failed send is skipped. Returns the texts tried and the texts the channel
        took; nothing of the config changes. */
    method SendPostsToTelegram(posts: Posts, outcome: seq<bool>)
      returns (attempted: seq<string>, delivered: seq<string>)
      ensures attempted == RenderReversed(posts.root, config.linkText)
      ensures delivered == Delivered(attempted, outcome)
    {
      attempted, delivered := [], [];
      var i := |posts.root|;
      while i > 0
        invariant 0 <= i <= |posts.root|
        invariant attempted == RenderReversed(posts.root[i..], config.linkText)
        invariant delivered == Delivered(attempted, outcome)
      {
        i := i - 1;
        var post := posts.root[i];
        var text := Render(post, config.linkText);
        if Accepts(outcome, |attempted|) {
          delivered := delivered + [text];
        }
        DeliveredSnoc(attempted, text, outcome);
        RenderReversedStep(posts.root, config.linkText, i);
        attempted := attempted + [text];
      }
      assert posts.root[0..] == posts.root;
    }

    /** `update()`: nothing at all when `can_update` fails at `checkedAt`; otherwise
        the bootstrap count on an empty config, the default cap otherwise, and the
        sender only when something new was found. */
    method Update(feed: seq<seq<Post>>, outcome: seq<bool>, checkedAt: int, doneAt: int)
      returns (result: Option<Posts>, fetched: bool, senderCalled: bool,
               attempted: seq<string>, delivered: seq<string>)
      requires |feed| > 0
      modifies config, config.posts
      ensures fetched <==> CanUpdate(checkedAt, old(config.lastUpdateDatetime), old(config.waitBeforeNextUpdate))
      ensures !senderCalled ==> attempted == [] && delivered == []
      ensures !CanUpdate(checkedAt, old(config.lastUpdateDatetime), old(config.waitBeforeNextUpdate)) ==>
                && result.None? && !senderCalled
                && config.posts.root == old(config.posts.root)
                && config.lastUpdateDatetime == old(config.lastUpdateDatetime)
      ensures CanUpdate(checkedAt, old(config.lastUpdateDatetime), old(config.waitBeforeNextUpdate)) ==>
                var found := NewPosts(old(config.posts.root), feed, RequestedMaxPosts(old(config.posts.root) == []));
                && result.Some? && fresh(result.value) && result.value.root == found
                && config.posts.root == old(config.posts.root) + found
                && config.lastUpdateDatetime == doneAt
                && (senderCalled <==> found != [])
                && (senderCalled ==> attempted == RenderReversed(found, config.linkText))
                && delivered == Delivered(attempted, outcome)
      ensures config.posts == old(config.posts) && config.linkText == old(config.linkText)
      ensures config.waitBeforeNextUpdate == old(config.waitBeforeNextUpdate)
      ensures config.updateEvery == old(config.updateEvery)
    {
      if !CanUpdate(checkedAt, config.lastUpdateDatetime, config.waitBeforeNextUpdate) {
        return None, false, false, [], [];
      }
      fetched := true;
      var newPosts;
      if config.posts.Len() > 0 {
        newPosts := GetNewPosts(feed, None, doneAt);
      } else {
        newPosts := GetNewPosts(feed, Some(FIRST_TIME_POSTS_COUNT), doneAt);
      }
      if newPosts.Len() > 0 {
        senderCalled := true;
        attempted, delivered := SendPostsToTelegram(newPosts, outcome);
      } else {
        senderCalled, attempted, delivered := false, [], [];
      }
      result := Some(newPosts);
    }
  }

  /** Two updates in a row, the first allowed and finishing at `doneAt`: the
      second, checked at `t`, is refused, returns `None` and leaves the posts and
      the update time as the first left them, iff it comes less than
      `wait_before_next_update` minutes after `doneAt`. */
  method SecondUpdateWaits(app: FB2Telegram, feed: seq<seq<Post>>, outcome: seq<bool>,
                           checkedAt: int, doneAt: int, t: int, doneAt2: int)
    returns (first: Option<Posts>, second: Option<Posts>)
    requires |feed| > 0
    requires CanUpdate(checkedAt, app.config.lastUpdateDatetime, app.config.waitBeforeNextUpdate)
    modifies app.config, app.config.posts
    ensures first.Some? && fresh(first.value)
    ensures second.None? <==> t < doneAt + 60 * old(app.config.waitBeforeNextUpdate)
    ensures second.None? ==>
              && app.config.posts.root == old(app.config.posts.root) + first.value.root
              && app.config.lastUpdateDatetime == doneAt
  {
    var f, c, a, d;
    first, f, c, a, d := app.Update(feed, outcome, checkedAt, doneAt);
    second, f, c, a, d := app.Update(feed, outcome, t, doneAt2);
  }
}
