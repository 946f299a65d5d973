/**
 * `FBConnector.iter_posts`, the same code in both copies of the program: a
 * generator that walks the feed page by page, yields each post, counts down a
 * budget after every post and stops when the budget reaches zero (even in the
 * middle of a page) or when a page has no link to a next page.
 *
 * The browser is a non-empty sequence of pages, each the list of posts the
 * page parser returns; page `i` has a next-page link iff `i + 1 < |pages|`.
 */
module Pagination {
  import opened Wrappers

  const DEFAULT_MAX_POSTS: int := 200

  /** `posts_count = max_posts or DEFAULT_MAX_POSTS`: `None` and `0` are both falsy. */
  function Budget(maxPosts: Option<int>): (b: int)
    ensures b != 0
    ensures maxPosts.Some? && maxPosts.value != 0 ==> b == maxPosts.value
    ensures maxPosts == None || maxPosts == Some(0) ==> b == DEFAULT_MAX_POSTS
  {
    if maxPosts.None? || maxPosts.value == 0 then DEFAULT_MAX_POSTS else maxPosts.value
  }

  /** All posts of the pages, in page order. */
  function Flatten<T>(pages: seq<seq<T>>): seq<T> {
    if pages == [] then [] else Flatten(pages[..|pages| - 1]) + pages[|pages| - 1]
  }

  /** Post `k` of the feed, counted from 0 in page order, lies on page
      `loaded - 1`, the last of the first `loaded` pages. */
  predicate OnPage<T>(pages: seq<seq<T>>, k: int, loaded: int) {
    1 <= loaded <= |pages| && |Flatten(pages[..loaded - 1])| <= k < |Flatten(pages[..loaded])|
  }

  lemma FlattenSnoc<T>(pages: seq<seq<T>>, i: nat)
    requires i < |pages|
    ensures Flatten(pages[..i + 1]) == Flatten(pages[..i]) + pages[i]
  {
    assert pages[..i + 1][..i] == pages[..i];
  }

  /** The posts of the first `i` pages, followed by the first `j` posts of page `i`,
      are the first posts of the whole feed. */
  lemma {:induction false} FlattenPrefix<T>(pages: seq<seq<T>>, i: nat, j: nat)
    requires i < |pages| && j <= |pages[i]|
    ensures |Flatten(pages[..i])| + j <= |Flatten(pages)|
    ensures Flatten(pages[..i]) + pages[i][..j] == Flatten(pages)[..|Flatten(pages[..i])| + j]
  {
    var last := |pages| - 1;
    var init := pages[..last];
    if i == last {
      assert pages[..i] == init;
    } else {
      FlattenPrefix(init, i, j);
      assert init[..i] == pages[..i];
    }
  }

  /** The whole sequence the generator yields when it is consumed to the end. */
  function Stream<T>(pages: seq<seq<T>>, budget: int): (s: seq<T>)
    ensures |s| <= |Flatten(pages)| && s == Flatten(pages)[..|s|]
    ensures 0 < budget ==> |s| <= budget
    ensures |s| == |Flatten(pages)| || |s| == budget
    ensures budget != 0 && Flatten(pages) != [] ==> s != []
  {
    var all := Flatten(pages);
    if 0 < budget < |all| then all[..budget] else all
  }

  /** The stream goes on past `n` posts while the feed has more and the budget allows. */
  lemma StreamContinues<T>(pages: seq<seq<T>>, budget: int, n: nat)
    requires n < |Flatten(pages)| && (budget <= 0 || n < budget)
    ensures n < |Stream(pages, budget)|
  {
  }

  /** The post at `pos` on page `page` is the next one of the stream after the
      posts before it, and it sits on page `page`. */
  lemma YieldStep<T>(pages: seq<seq<T>>, budget: int, page: nat, pos: nat)
    requires page < |pages| && pos < |pages[page]|
    requires 0 < budget ==> |Flatten(pages[..page]) + pages[page][..pos]| < budget
    ensures var y := Flatten(pages[..page]) + pages[page][..pos];
            && |y| < |Stream(pages, budget)|
            && pages[page][pos] == Stream(pages, budget)[|y|]
            && Flatten(pages[..page]) + pages[page][..pos + 1] == y + [pages[page][pos]]
            && |Flatten(pages[..page])| < |y| + 1 <= |Flatten(pages[..page + 1])|
  {
    var y := Flatten(pages[..page]) + pages[page][..pos];
    var x := pages[page][pos];
    var all := Flatten(pages);
    FlattenPrefix(pages, page, pos + 1);
    StreamContinues(pages, budget, |y|);
    assert pages[page][..pos + 1] == pages[page][..pos] + [x];
    assert y + [x] == all[..|y| + 1];
    assert x == all[|y|];
    FlattenSnoc(pages, page);
  }

  /** A suspended `iter_posts` generator together with the browser it drives. */
  class FeedWalker<T> {
    const pages: seq<seq<T>>
    const budget: int
    var page: nat       // the page the browser shows
    var pos: nat        // the next post of that page
    var count: int      // `posts_count`
    var pending: bool   // suspended at `yield`: the decrement and the check are still to run
    var finished: bool  // the generator has returned
    var loaded: nat     // pages the browser has loaded so far

    /** The posts yielded so far. */
    function Yielded(): seq<T>
      reads this
      requires page < |pages| && pos <= |pages[page]|
    {
      Flatten(pages[..page]) + pages[page][..pos]
    }

    ghost predicate Valid()
      reads this
    {
      && 0 < |pages| && page < |pages| && pos <= |pages[page]|
      && budget != 0
      && loaded == page + 1
      && count == budget - |Yielded()| + (if pending then 1 else 0)
      && |Yielded()| <= |Stream(pages, budget)|
      && (finished ==> |Yielded()| == |Stream(pages, budget)| && !pending)
      && (!pending && !finished ==> |Yielded()| != budget)
      // the last page loaded is the one that holds the last post yielded
      && (pending || (finished && |Yielded()| < |Flatten(pages)|) ==> pos > 0)
    }

    /** `iter_posts(feed_url, max_posts)` up to its first `yield`: the feed URL is loaded. */
    constructor (feed: seq<seq<T>>, maxPosts: Option<int>)
      requires |feed| > 0
      ensures Valid() && pages == feed && budget == Budget(maxPosts)
      ensures Yielded() == [] && !finished && loaded == 1
    {
      pages := feed;
      budget := Budget(maxPosts);
      page, pos := 0, 0;
      count := Budget(maxPosts);
      pending, finished := false, false;
      loaded := 1;
    }

    /** Resumes the generator: the next post, or `None` once the generator has returned. */
    method Next() returns (p: Option<T>)
      requires Valid()
      modifies this
      ensures Valid()
      ensures p.Some? <==> |old(Yielded())| < |Stream(pages, budget)|
      ensures p.Some? ==> p.value == Stream(pages, budget)[|old(Yielded())|]
      ensures p.Some? ==> Yielded() == old(Yielded()) + [p.value] && pending
      ensures p.None? ==> finished && Yielded() == old(Yielded())
      ensures old(finished) ==> p.None? && loaded == old(loaded)
      ensures |old(Yielded())| == budget ==> p.None? && loaded == old(loaded)
      ensures p.Some? ==> |Flatten(pages[..loaded - 1])| < |Yielded()| <= |Flatten(pages[..loaded])|
    {
      if finished {
        return None;
      }
      Resume();
      if finished {
        return None;
      }
      ghost var y := Yielded();
      SkipExhaustedPages();
      if finished {
        return None;
      }
      p := YieldPost();
    }

    /** `yield post` for the next post of the current page. */
    method YieldPost() returns (p: Option<T>)
      requires Valid() && !finished && !pending && pos < |pages[page]|
      requires count == budget - |Yielded()| && (0 < budget ==> |Yielded()| < budget)
      modifies this`pos, this`pending
      ensures Valid() && pending && p.Some?
      ensures Yielded() == old(Yielded()) + [p.value]
      ensures p.value == Stream(pages, budget)[|old(Yielded())|]
      ensures |Flatten(pages[..loaded - 1])| < |Yielded()| <= |Flatten(pages[..loaded])|
    {
      YieldStep(pages, budget, page, pos);
      var x := pages[page][pos];
      p := Some(x);
      pos := pos + 1;
      pending := true;
    }

    /** What runs after the consumer asks for the next post: `posts_count -= 1`
        and `if not posts_count: return`, when a post was yielded before. */
    method Resume()
      requires Valid() && !finished
      modifies this`count, this`pending, this`finished
      ensures Valid() && !pending && Yielded() == old(Yielded())
      ensures finished ==> |Yielded()| == |Stream(pages, budget)|
      ensures !finished ==> count == budget - |Yielded()| && (0 < budget ==> |Yielded()| < budget)
    {
      if pending {
        count := count - 1;
        pending := false;
        if count == 0 {
          finished := true;
        }
      }
    }

    /** The `while True` step after a page is used up: click the next-page link
        while there is one and the current page has no post left, or return. */
    method SkipExhaustedPages()
      requires page < |pages| && pos <= |pages[page]| && loaded == page + 1 && !finished
      modifies this`page, this`pos, this`loaded, this`finished
      ensures page < |pages| && pos <= |pages[page]| && loaded == page + 1
      ensures Yielded() == old(Yielded())
      ensures !finished ==> pos < |pages[page]|
      ensures finished ==> Yielded() == Flatten(pages)
      ensures old(pos) < |pages[old(page)]| ==> !finished && page == old(page) && pos == old(pos)
    {
      ghost var y := Yielded();
      while pos == |pages[page]| && !finished
        invariant page < |pages| && pos <= |pages[page]| && loaded == page + 1
        invariant Yielded() == y
        invariant finished ==> page == |pages| - 1 && pos == |pages[page]|
        invariant old(pos) < |pages[old(page)]| ==> !finished && page == old(page) && pos == old(pos)
        decreases |pages| - page, if finished then 0 else 1
      {
        if page + 1 < |pages| {
          FlattenSnoc(pages, page);
          assert pages[page][..pos] == pages[page];
          page, pos := page + 1, 0;
          loaded := loaded + 1;
        } else {
          finished := true;
        }
      }
      if finished {
        assert pages[..page + 1] == pages;
        FlattenSnoc(pages, page);
        assert pages[page][..pos] == pages[page];
      }
    }
  }
}
