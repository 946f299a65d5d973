/**
 * The Telegram side shared by both copies: the message text with its link to
 * the post, and the channel as an oracle. Attempt number `k` (counting from 0
 * within one dispatcher run) succeeds iff `k < |outcome| && outcome[k]`; an
 * attempt the oracle has no answer for fails, as a raised exception does.
 */
module Delivery {
  import opened Wrappers
  import opened PyText

  const BASE_URL: string := "https://d.facebook.com/"

  /** `urljoin(BASE_URL, post_id)` for an id that is a plain path segment
      (Facebook ids are digit strings); a missing or empty id gives the base. */
  function PostUrl(id: Option<string>): (u: string)
    ensures |BASE_URL| <= |u| && u[..|BASE_URL|] == BASE_URL
    ensures id.Some? && id.value != [] ==> u[|BASE_URL|..] == id.value
    ensures id.None? || id == Some([]) ==> u == BASE_URL
  {
    if id.None? || id.value == [] then BASE_URL else BASE_URL + id.value
  }

  /** An id without a line break gives a one-line url. */
  lemma PostUrlOneLine(id: Option<string>)
    requires id.Some? ==> '\n' !in id.value
    ensures '\n' !in PostUrl(id)
  {
    assert '\n' !in BASE_URL;
    if id.Some? && id.value != [] {
      var u := BASE_URL + id.value;
      forall i | 0 <= i < |u| ensures u[i] != '\n' {
        if i < |BASE_URL| {
          assert u[i] == BASE_URL[i];
        } else {
          assert u[i] == id.value[i - |BASE_URL|];
        }
      }
    }
  }

  /** `[linkText](url)`, a markdown link. */
  function LinkLine(linkText: string, url: string): string {
    "[" + linkText + "](" + url + ")"
  }

  /** `f"{short_text}\n[{link_text}]({url})"`. */
  function MessageText(shortText: string, linkText: string, url: string): string {
    shortText + "\n" + LinkLine(linkText, url)
  }

  /** The link always sits alone on the last line of the message, after the
      lines of the short text. */
  lemma MessageLines(shortText: string, linkText: string, url: string)
    requires '\n' !in linkText && '\n' !in url
    ensures Split(MessageText(shortText, linkText, url), '\n')
            == Split(shortText, '\n') + [LinkLine(linkText, url)]
  {
    var link := LinkLine(linkText, url);
    assert '\n' !in link by {
      assert forall i :: 0 <= i < |link| ==> link[i] != '\n' by {
        forall i | 0 <= i < |link| ensures link[i] != '\n' {
          if 1 <= i < 1 + |linkText| {
            assert link[i] == linkText[i - 1];
          } else if 3 + |linkText| <= i < 3 + |linkText| + |url| {
            assert link[i] == url[i - 3 - |linkText|];
          }
        }
      }
    }
    assert MessageText(shortText, linkText, url) == shortText + ['\n'] + link;
    SplitAround(shortText, '\n', link);
    SplitWithoutSep(link, '\n');
  }

  /** The `k`-th send attempt of a run succeeds. */
  predicate Accepts(outcome: seq<bool>, k: nat) {
    k < |outcome| && outcome[k]
  }

  /** The messages the channel accepts when `msgs` are sent one after the other
      and a failure only skips its own message. */
  function Delivered(msgs: seq<string>, outcome: seq<bool>): (d: seq<string>)
    ensures |d| <= |msgs|
  {
    if msgs == [] then []
    else
      Delivered(msgs[..|msgs| - 1], outcome)
      + (if Accepts(outcome, |msgs| - 1) then [msgs[|msgs| - 1]] else [])
  }

  /** One more attempt: its message is delivered iff the oracle accepts it. */
  lemma DeliveredSnoc(msgs: seq<string>, m: string, outcome: seq<bool>)
    ensures Delivered(msgs + [m], outcome)
            == Delivered(msgs, outcome) + (if Accepts(outcome, |msgs|) then [m] else [])
  {
    assert (msgs + [m])[..|msgs|] == msgs;
  }

  /** Failure isolation, both directions: a message is delivered iff one of its
      attempts succeeded, whatever happened to the attempts before it. */
  lemma {:induction false} DeliveredExactly(msgs: seq<string>, outcome: seq<bool>, m: string)
    ensures m in Delivered(msgs, outcome)
            <==> exists k :: 0 <= k < |msgs| && msgs[k] == m && Accepts(outcome, k)
  {
    if msgs != [] {
      var init := msgs[..|msgs| - 1];
      DeliveredExactly(init, outcome, m);
      if exists k :: 0 <= k < |msgs| && msgs[k] == m && Accepts(outcome, k) {
        var k :| 0 <= k < |msgs| && msgs[k] == m && Accepts(outcome, k);
        if k < |msgs| - 1 {
          assert init[k] == m;
        }
      }
      if m in Delivered(init, outcome) {
        var k :| 0 <= k < |init| && init[k] == m && Accepts(outcome, k);
        assert msgs[k] == m;
      }
    }
  }

  /** When every attempt succeeds, every message is delivered, in order. */
  lemma {:induction false} AllAcceptedDeliversAll(msgs: seq<string>, outcome: seq<bool>)
    requires |msgs| <= |outcome| && forall k :: 0 <= k < |msgs| ==> outcome[k]
    ensures Delivered(msgs, outcome) == msgs
  {
    if msgs != [] {
      AllAcceptedDeliversAll(msgs[..|msgs| - 1], outcome);
      assert msgs[..|msgs| - 1] + [msgs[|msgs| - 1]] == msgs;
    }
  }
}
