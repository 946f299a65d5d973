/**
 * `source/facebook2telegram.py`: the copy that keeps posts in a document
 * collection with a per-record `sent_to_telegram` flag.
 *
 * The collection is a class holding its records in insertion order; a
 * record's `_id` is its position, since nothing is ever deleted. The page
 * parser, html2text and the Telegram bot stay outside: the feed is a sequence
 * of pages of parsed posts, html2text is the function `toMarkdown`, and the
 * bot is the outcome oracle of module Delivery.
 */
module StoreSync {
  import opened Wrappers
  import opened PyText
  import opened Pagination
  import opened Sync
  import opened Delivery
  import Models

  /** A post as `parse_article_tag` builds it. */
  datatype Post = Post(html: string, metadata: map<string, string>)
  {
    /** `post_id`, which `__post_init__` sets from `metadata.get("top_level_post_id")`
        every time a `Post` is built, also when it is rebuilt from a stored record. */
    function PostId(): Option<string> {
      Models.MetadataId(metadata)
    }
  }

  /** A stored document: `asdict(post)`, whose `sent_to_telegram` is the one field
      that changes after insertion. */
  datatype Record = Record(post: Post, sentToTelegram: bool)

  // ---------------------------------------------------------------------------
  // Post.short_text, after html2text

  /** `is_char_acceptable`: letters, digits, whitespace and punctuation; in
      particular line breaks pass, so the filter keeps the line structure. */
  predicate IsCharAcceptable(c: char)
    ensures c == '\n' || IsAlnum(c) ==> IsCharAcceptable(c)
  {
    IsAlnum(c) || IsSpace(c) || IsPunctuation(c)
  }

  /** `"".join(filter(is_char_acceptable, text))`. */
  function KeepAcceptable(s: string): (r: string)
    ensures |r| <= |s|
  {
    if s == [] then []
    else (if IsCharAcceptable(s[0]) then [s[0]] else []) + KeepAcceptable(s[1..])
  }

  /** The filter keeps only acceptable characters... */
  lemma {:induction false} KeepAcceptableIsAcceptable(s: string)
    ensures forall i :: 0 <= i < |KeepAcceptable(s)| ==> IsCharAcceptable(KeepAcceptable(s)[i])
  {
    if s != [] {
      KeepAcceptableIsAcceptable(s[1..]);
    }
  }

  /** ...and brings in no character. */
  lemma {:induction false} KeepAcceptableKeepsAbsent(s: string, c: char)
    requires c !in s
    ensures c !in KeepAcceptable(s)
  {
    if s != [] {
      KeepAcceptableKeepsAbsent(s[1..], c);
    }
  }

  /** The character filter works character by character and keeps the order... */
  lemma {:induction false} KeepAcceptableAppend(a: string, b: string)
    ensures KeepAcceptable(a + b) == KeepAcceptable(a) + KeepAcceptable(b)
  {
    if a != [] {
      assert (a + b)[0] == a[0] && (a + b)[1..] == a[1..] + b;
      KeepAcceptableAppend(a[1..], b);
    } else {
      assert a + b == b;
    }
  }

  /** ...and keeps one character exactly when it is acceptable. */
  lemma KeepAcceptableSingle(c: char)
    ensures KeepAcceptable([c]) == if IsCharAcceptable(c) then [c] else []
  {
    assert [c][1..] == [];
  }

  /** A text made only of acceptable characters passes the filter unchanged. */
  lemma {:induction false} KeepAcceptableKeepsAll(s: string)
    requires forall i :: 0 <= i < |s| ==> IsCharAcceptable(s[i])
    ensures KeepAcceptable(s) == s
  {
    if s != [] {
      KeepAcceptableKeepsAll(s[1..]);
      assert [s[0]] + s[1..] == s;
    }
  }

  /** The three `replace` calls: the markdown symbols `#`, `*` and `_` are gone
      afterwards, and every other character occurs as often as before. */
  function DropMarkup(markdown: string): (t: string)
    ensures '#' !in t && '*' !in t && '_' !in t
    ensures forall c :: c != '#' && c != '*' && c != '_' ==> CountChar(t, c) == CountChar(markdown, c)
  {
    var t1 := Replace(markdown, "#", "");
    var t2 := Replace(t1, "*", "");
    assert "#" == ['#'] && "*" == ['*'] && "_" == ['_'];
    ReplaceRemoves(markdown, '#', "");
    ReplaceKeepsAbsent(t1, "*", "", '#');
    ReplaceKeepsAbsent(t2, "_", "", '#');
    ReplaceRemoves(t1, '*', "");
    ReplaceKeepsAbsent(t2, "_", "", '*');
    ReplaceRemoves(t2, '_', "");
    assert forall c | c != '#' && c != '*' && c != '_' :: CountChar(Replace(t2, "_", ""), c) == CountChar(markdown, c) by {
      forall c | c != '#' && c != '*' && c != '_'
        ensures CountChar(Replace(t2, "_", ""), c) == CountChar(markdown, c)
      {
        ReplaceKeepsCount(markdown, "#", "", c);
        ReplaceKeepsCount(t1, "*", "", c);
        ReplaceKeepsCount(t2, "_", "", c);
      }
    }
    Replace(t2, "_", "")
  }

  /** The list comprehension over the lines: each line stripped, kept when it
      holds a letter or a digit (`is_line_acceptable`). */
  function AcceptableLines(ls: seq<string>): (r: seq<string>)
    ensures |r| <= |ls|
    ensures forall i :: 0 <= i < |r| ==> IsStripped(r[i]) && HasAlnum(r[i])
  {
    if ls == [] then []
    else
      var rest := AcceptableLines(ls[1..]);
      if HasAlnum(Strip(ls[0])) then
        [Strip(ls[0])] + rest
      else rest
  }

  /** The line filter works line by line and keeps the order... */
  lemma {:induction false} AcceptableLinesAppend(a: seq<string>, b: seq<string>)
    ensures AcceptableLines(a + b) == AcceptableLines(a) + AcceptableLines(b)
  {
    if a != [] {
      assert (a + b)[0] == a[0] && (a + b)[1..] == a[1..] + b;
      AcceptableLinesAppend(a[1..], b);
    } else {
      assert a + b == b;
    }
  }

  /** ...and keeps one line, stripped, exactly when its stripped form holds a
      letter or a digit. */
  lemma AcceptableLinesSingle(x: string)
    ensures AcceptableLines([x]) == if HasAlnum(Strip(x)) then [Strip(x)] else []
  {
    assert [x][1..] == [];
  }

  lemma {:induction false} AcceptableLinesKeepAbsent(ls: seq<string>, c: char)
    requires forall i :: 0 <= i < |ls| ==> c !in ls[i]
    ensures forall i :: 0 <= i < |AcceptableLines(ls)| ==> c !in AcceptableLines(ls)[i]
  {
    if ls != [] {
      var tail := ls[1..];
      assert forall i :: 0 <= i < |tail| ==> tail[i] == ls[i + 1];
      AcceptableLinesKeepAbsent(tail, c);
      assert c !in ls[0];
      StripKeepsAbsent(ls[0], c);
      var rest := AcceptableLines(tail);
      var r := AcceptableLines(ls);
      if HasAlnum(Strip(ls[0])) {
        assert r == [Strip(ls[0])] + rest;
        forall i | 0 <= i < |r| ensures c !in r[i] {
          if i > 0 {
            assert r[i] == rest[i - 1];
          }
        }
      } else {
        assert r == rest;
      }
    }
  }

  /** `"\n".join(...)` over the acceptable lines of the text. */
  function CleanLines(t: string): string {
    Join('\n', AcceptableLines(Split(t, '\n')))
  }

  lemma CleanLinesKeepsAbsent(t: string, c: char)
    requires c != '\n' && c !in t
    ensures c !in CleanLines(t)
  {
    var pieces := Split(t, '\n');
    SplitKeepsAbsent(t, '\n', c);
    AcceptableLinesKeepAbsent(pieces, c);
    JoinKeepsAbsent('\n', AcceptableLines(pieces), c);
  }

  /** `short_text` applied to the markdown that html2text made of the post's html. */
  function ShortText(markdown: string): string {
    CleanLines(KeepAcceptable(DropMarkup(markdown)))
  }

  /** The markdown symbols `#`, `*` and `_` never reach the short text. */
  lemma ShortTextDropsMarkup(markdown: string)
    ensures '#' !in ShortText(markdown)
    ensures '*' !in ShortText(markdown)
    ensures '_' !in ShortText(markdown)
  {
    var t := DropMarkup(markdown);
    KeepAcceptableKeepsAbsent(t, '#');
    KeepAcceptableKeepsAbsent(t, '*');
    KeepAcceptableKeepsAbsent(t, '_');
    CleanLinesKeepsAbsent(KeepAcceptable(t), '#');
    CleanLinesKeepsAbsent(KeepAcceptable(t), '*');
    CleanLinesKeepsAbsent(KeepAcceptable(t), '_');
  }

  /** Every character of the short text passes `is_char_acceptable`. */
  lemma ShortTextCharsAcceptable(markdown: string)
    ensures forall i :: 0 <= i < |ShortText(markdown)| ==> IsCharAcceptable(ShortText(markdown)[i])
  {
    var k := KeepAcceptable(DropMarkup(markdown));
    KeepAcceptableIsAcceptable(DropMarkup(markdown));
    var r := ShortText(markdown);
    forall i | 0 <= i < |r| ensures IsCharAcceptable(r[i]) {
      var c := r[i];
      if !IsCharAcceptable(c) {
        CleanLinesKeepsAbsent(k, c);
        assert false;
      }
    }
  }

  /** The short text is stripped lines, each with a letter or a digit. */
  lemma ShortTextLinesAreClean(markdown: string)
    ensures var r := ShortText(markdown);
            r == [] || forall i :: 0 <= i < |Split(r, '\n')| ==>
                         IsStripped(Split(r, '\n')[i]) && HasAlnum(Split(r, '\n')[i])
  {
    var pieces := Split(KeepAcceptable(DropMarkup(markdown)), '\n');
    var lines := AcceptableLines(pieces);
    if lines != [] {
      SplitPiecesLackSep(KeepAcceptable(DropMarkup(markdown)), '\n');
      AcceptableLinesKeepAbsent(pieces, '\n');
      SplitJoin('\n', lines);
    }
  }

  /** `f"{post.short_text}\n[link]({urljoin(BASE_URL, post.post_id)})"`. */
  function Message(p: Post, toMarkdown: string -> string): string {
    MessageText(ShortText(toMarkdown(p.html)), "link", PostUrl(p.PostId()))
  }

  /** The link to the post is the last line of its message, on its own. */
  lemma MessageEndsWithLink(p: Post, toMarkdown: string -> string)
    requires p.PostId().Some? ==> '\n' !in p.PostId().value
    ensures var lines := Split(Message(p, toMarkdown), '\n');
            lines[|lines| - 1] == LinkLine("link", PostUrl(p.PostId()))
  {
    var url := PostUrl(p.PostId());
    PostUrlOneLine(p.PostId());
    MessageLines(ShortText(toMarkdown(p.html)), "link", url);
  }

  // ---------------------------------------------------------------------------
  // the collection, seen as sequences

  function PostIds(s: seq<Post>): (ids: seq<Option<string>>)
    ensures |ids| == |s| && forall i :: 0 <= i < |s| ==> ids[i] == s[i].PostId()
  {
    seq(|s|, i requires 0 <= i < |s| => s[i].PostId())
  }

  function RecordIds(rs: seq<Record>): (ids: seq<Option<string>>)
    ensures |ids| == |rs| && forall i :: 0 <= i < |rs| ==> ids[i] == rs[i].post.PostId()
  {
    seq(|rs|, i requires 0 <= i < |rs| => rs[i].post.PostId())
  }

  /** The documents `insert_one(asdict(post))` stores for new posts: not yet sent. */
  function AsRecords(s: seq<Post>): (rs: seq<Record>)
    ensures |rs| == |s|
    ensures forall i :: 0 <= i < |s| ==> rs[i].post == s[i] && !rs[i].sentToTelegram
  {
    seq(|s|, i requires 0 <= i < |s| => Record(s[i], false))
  }

  lemma IdsOfInserted(rs: seq<Record>, s: seq<Post>, m: nat)
    requires m <= |s|
    ensures RecordIds(rs + AsRecords(s[..m])) == RecordIds(rs) + PostIds(s)[..m]
  {
  }

  /** Inserting the next post of the stream extends the inserted prefix by one. */
  lemma InsertNext(rs: seq<Record>, s: seq<Post>, m: nat)
    requires m < |s|
    ensures rs + AsRecords(s[..m + 1]) == rs + AsRecords(s[..m]) + [Record(s[m], false)]
  {
    assert AsRecords(s[..m + 1]) == AsRecords(s[..m]) + [Record(s[m], false)];
  }

  /** One step of the loop of `get_new_posts`, after `m` posts were inserted: the
      next post is already stored iff the run stops there. */
  lemma InsertStep(rs: seq<Record>, s: seq<Post>, m: nat)
    requires m < |s| && m <= NewCount(PostIds(s), RecordIds(rs))
    ensures s[m].PostId() in RecordIds(rs + AsRecords(s[..m]))
            <==> m == NewCount(PostIds(s), RecordIds(rs))
    ensures s[..m + 1] == s[..m] + [s[m]]
  {
    IdsOfInserted(rs, s, m);
    NewCountStep(PostIds(s), RecordIds(rs), m);
  }

  /** The collection after `get_new_posts(max_posts)` ran over `feed`: the old
      records, then the posts of the stream before the first one already stored. */
  function Synced(rs: seq<Record>, feed: seq<seq<Post>>, maxPosts: Option<int>): (r: seq<Record>)
    ensures |rs| <= |r| && r[..|rs|] == rs
    ensures forall i :: |rs| <= i < |r| ==> !r[i].sentToTelegram
  {
    var s := Stream(feed, Budget(maxPosts));
    rs + AsRecords(s[..NewCount(PostIds(s), RecordIds(rs))])
  }

  /** No `post_id` is stored twice when none was before, even if the feed repeats one. */
  lemma SyncedIdsDistinct(rs: seq<Record>, feed: seq<seq<Post>>, maxPosts: Option<int>)
    requires Distinct(RecordIds(rs))
    ensures Distinct(RecordIds(Synced(rs, feed, maxPosts)))
  {
    var s := Stream(feed, Budget(maxPosts));
    var n := NewCount(PostIds(s), RecordIds(rs));
    NoDuplicateIds(PostIds(s), RecordIds(rs));
    IdsOfInserted(rs, s, n);
  }

  /** Idempotent sync: a second run over the same feed, whatever its budget,
      stores nothing more. */
  lemma SyncIdempotent(rs: seq<Record>, feed: seq<seq<Post>>, m1: Option<int>, m2: Option<int>)
    ensures Synced(Synced(rs, feed, m1), feed, m2) == Synced(rs, feed, m1)
  {
    var s1 := Stream(feed, Budget(m1));
    var s2 := Stream(feed, Budget(m2));
    var n := NewCount(PostIds(s1), RecordIds(rs));
    var once := rs + AsRecords(s1[..n]);
    assert once == Synced(rs, feed, m1);
    IdsOfInserted(rs, s1, n);
    if Flatten(feed) != [] {
      assert s1[0] == s2[0] == Flatten(feed)[0];
      SecondRunInsertsNothing(PostIds(s1), RecordIds(rs), PostIds(s2));
    }
    assert NewCount(PostIds(s2), RecordIds(once)) == 0;
    assert s2[..0] == [];
  }

  // ---------------------------------------------------------------------------
  // delivery, seen as sequences

  /** `count_documents({"sent_to_telegram": False})`. */
  function UnsentCount(rs: seq<Record>): (n: nat)
    ensures n <= |rs|
  {
    if rs == [] then 0
    else UnsentCount(rs[..|rs| - 1]) + (if rs[|rs| - 1].sentToTelegram then 0 else 1)
  }

  lemma {:induction false} UnsentCountPrefix(rs: seq<Record>, i: nat)
    requires i <= |rs|
    ensures UnsentCount(rs[..i]) <= UnsentCount(rs)
    ensures i < |rs| && !rs[i].sentToTelegram ==> UnsentCount(rs[..i]) < UnsentCount(rs)
    decreases |rs|
  {
    if i < |rs| {
      UnsentCountPrefix(rs[..|rs| - 1], i);
      assert rs[..|rs| - 1][..i] == rs[..i];
    } else {
      assert rs[..i] == rs;
    }
  }

  /** The posts the dispatcher tries to send, one per unsent record, in store order. */
  function UnsentPosts(rs: seq<Record>): (ps: seq<Post>)
    ensures |ps| == UnsentCount(rs)
  {
    if rs == [] then []
    else
      var last := rs[|rs| - 1];
      UnsentPosts(rs[..|rs| - 1]) + (if last.sentToTelegram then [] else [last.post])
  }

  /** The texts sent for a sequence of posts. */
  function Messages(ps: seq<Post>, toMarkdown: string -> string): (ms: seq<string>)
    ensures |ms| == |ps| && forall j :: 0 <= j < |ps| ==> ms[j] == Message(ps[j], toMarkdown)
  {
    seq(|ps|, j requires 0 <= j < |ps| => Message(ps[j], toMarkdown))
  }

  /** The records after the dispatcher ran: an unsent record becomes sent iff its
      attempt succeeded; the attempt number of a record is the number of unsent
      records before it. */
  function Deliver(rs: seq<Record>, outcome: seq<bool>): (r: seq<Record>)
    ensures |r| == |rs|
  {
    if rs == [] then []
    else
      var init, last := rs[..|rs| - 1], rs[|rs| - 1];
      Deliver(init, outcome)
      + [if last.sentToTelegram then last
         else last.(sentToTelegram := Accepts(outcome, UnsentCount(init)))]
  }

  /** The dispatcher's effect on one record, seen on its own. */
  lemma {:induction false} DeliverAt(rs: seq<Record>, outcome: seq<bool>, i: nat)
    requires i < |rs|
    ensures Deliver(rs, outcome)[i].post == rs[i].post
    ensures Deliver(rs, outcome)[i].sentToTelegram
            == (rs[i].sentToTelegram || Accepts(outcome, UnsentCount(rs[..i])))
    decreases |rs|
  {
    if i < |rs| - 1 {
      DeliverAt(rs[..|rs| - 1], outcome, i);
      assert rs[..|rs| - 1][..i] == rs[..i];
    }
  }

  /** The `sent_to_telegram` flag never goes back to False, the posts do not change,
      and a record stays unsent iff it was unsent and its own attempt failed: a
      failure leaves every other record as its own attempt decides. */
  lemma DeliverOnlySetsFlags(rs: seq<Record>, outcome: seq<bool>)
    ensures |Deliver(rs, outcome)| == |rs|
    ensures forall i :: 0 <= i < |rs| ==> Deliver(rs, outcome)[i].post == rs[i].post
    ensures forall i :: 0 <= i < |rs| && rs[i].sentToTelegram ==> Deliver(rs, outcome)[i].sentToTelegram
    ensures forall i :: 0 <= i < |rs| ==>
              (!Deliver(rs, outcome)[i].sentToTelegram
               <==> !rs[i].sentToTelegram && !Accepts(outcome, UnsentCount(rs[..i])))
  {
    forall i | 0 <= i < |rs| ensures Deliver(rs, outcome)[i].post == rs[i].post
      && (Deliver(rs, outcome)[i].sentToTelegram
          == (rs[i].sentToTelegram || Accepts(outcome, UnsentCount(rs[..i])))) {
      DeliverAt(rs, outcome, i);
    }
  }

  /** The attempt for an unsent record carries its post, at its rank among the unsent. */
  lemma {:induction false} UnsentPostsAt(rs: seq<Record>, i: nat)
    requires i < |rs| && !rs[i].sentToTelegram
    ensures UnsentCount(rs[..i]) < |UnsentPosts(rs)|
    ensures UnsentPosts(rs)[UnsentCount(rs[..i])] == rs[i].post
    decreases |rs|
  {
    UnsentCountPrefix(rs, i);
    var init := rs[..|rs| - 1];
    if i < |rs| - 1 {
      UnsentPostsAt(init, i);
      assert init[..i] == rs[..i];
    } else {
      assert rs[..i] == init;
    }
  }

  /** An unsent post is offered exactly once: the posts offered are the unsent
      ones, each at one rank. */
  lemma {:induction false} UnsentPostsExactly(rs: seq<Record>, p: Post)
    ensures p in UnsentPosts(rs) <==> exists i :: 0 <= i < |rs| && !rs[i].sentToTelegram && rs[i].post == p
    decreases |rs|
  {
    if rs != [] {
      var init, last := rs[..|rs| - 1], rs[|rs| - 1];
      UnsentPostsExactly(init, p);
      assert UnsentPosts(rs) == UnsentPosts(init) + (if last.sentToTelegram then [] else [last.post]);
      if p in UnsentPosts(rs) {
        if p in UnsentPosts(init) {
          var i :| 0 <= i < |init| && !init[i].sentToTelegram && init[i].post == p;
          assert rs[i] == init[i];
        } else {
          assert !rs[|rs| - 1].sentToTelegram && rs[|rs| - 1].post == p;
        }
      }
      if exists i :: 0 <= i < |rs| && !rs[i].sentToTelegram && rs[i].post == p {
        var i :| 0 <= i < |rs| && !rs[i].sentToTelegram && rs[i].post == p;
        if i < |init| {
          assert init[i] == rs[i];
        }
      }
    }
  }

  /** With nothing unsent the dispatcher sends nothing and changes nothing. */
  lemma NothingUnsent(rs: seq<Record>, outcome: seq<bool>)
    requires UnsentCount(rs) == 0
    ensures UnsentPosts(rs) == []
    ensures Deliver(rs, outcome) == rs
  {
    forall i | 0 <= i < |rs| ensures Deliver(rs, outcome)[i] == rs[i] {
      UnsentCountPrefix(rs, i);
      DeliverAt(rs, outcome, i);
    }
  }

  /** A dispatcher run never adds unsent records, and removes at least one when
      some attempt succeeds: the next run offers only the failures again. */
  lemma {:induction false} NextRunRetriesOnlyFailures(rs: seq<Record>, outcome: seq<bool>)
    ensures UnsentCount(Deliver(rs, outcome)) <= UnsentCount(rs)
    ensures (exists k :: 0 <= k < UnsentCount(rs) && Accepts(outcome, k))
              ==> UnsentCount(Deliver(rs, outcome)) < UnsentCount(rs)
    decreases |rs|
  {
    if rs != [] {
      var init := rs[..|rs| - 1];
      NextRunRetriesOnlyFailures(init, outcome);
      var d := Deliver(rs, outcome);
      assert d[..|d| - 1] == Deliver(init, outcome);
      if exists k :: 0 <= k < UnsentCount(rs) && Accepts(outcome, k) {
        var k :| 0 <= k < UnsentCount(rs) && Accepts(outcome, k);
        if k >= UnsentCount(init) {
          assert !rs[|rs| - 1].sentToTelegram;
        }
      }
    }
  }

  /** No unsent record is counted iff every record is sent. */
  lemma {:induction false} UnsentCountZero(rs: seq<Record>)
    ensures UnsentCount(rs) == 0 <==> forall i :: 0 <= i < |rs| ==> rs[i].sentToTelegram
  {
    if rs != [] {
      var init := rs[..|rs| - 1];
      UnsentCountZero(init);
      assert forall i :: 0 <= i < |init| ==> init[i] == rs[i];
    }
  }

  /** One more record looked at by the dispatcher. */
  lemma DispatchStep(rs: seq<Record>, outcome: seq<bool>, i: nat)
    requires i < |rs|
    ensures UnsentCount(rs[..i + 1]) == UnsentCount(rs[..i]) + (if rs[i].sentToTelegram then 0 else 1)
    ensures UnsentPosts(rs[..i + 1]) == UnsentPosts(rs[..i]) + (if rs[i].sentToTelegram then [] else [rs[i].post])
    ensures Deliver(rs[..i + 1], outcome) == Deliver(rs[..i], outcome)
              + [if rs[i].sentToTelegram then rs[i]
                 else rs[i].(sentToTelegram := Accepts(outcome, UnsentCount(rs[..i])))]
  {
    assert rs[..i + 1][..i] == rs[..i];
  }

  lemma MessagesSnoc(ps: seq<Post>, p: Post, toMarkdown: string -> string)
    ensures Messages(ps + [p], toMarkdown) == Messages(ps, toMarkdown) + [Message(p, toMarkdown)]
  {
  }

  /** Rewriting the record at the boundary between the processed and the pending part. */
  lemma SetAtBoundary(done: seq<Record>, rest: seq<Record>, x: Record)
    requires rest != []
    ensures (done + rest)[|done| := x] == done + [x] + rest[1..]
    ensures done + rest == done + [rest[0]] + rest[1..]
  {
  }

  // ---------------------------------------------------------------------------
  // worked examples

  /** A post whose `top_level_post_id` is `id`. */
  function PostWithId(id: string): (p: Post)
    ensures p.PostId() == Some(id)
  {
    Post("", map[Models.TOP_LEVEL_POST_ID := id])
  }

  /** On a single page the stream is the page, up to the budget. */
  lemma SinglePageStream(x: seq<Post>)
    requires |x| < DEFAULT_MAX_POSTS
    ensures Stream([x], Budget(None)) == x
  {
    assert [x][..0] == [];
    assert Flatten([x]) == Flatten([x][..0]) + x == x;
  }

  lemma BoundaryCount(seen: seq<Option<string>>)
    requires seen == [Some("2"), Some("1")]
    ensures NewCount([Some("5"), Some("4"), Some("3"), Some("2"), Some("1")], seen) == 3
  {
    var ids := [Some("5"), Some("4"), Some("3"), Some("2"), Some("1")];
    var seen3 := seen + [Some("5"), Some("4"), Some("3")];
    assert ids[3..][0] == Some("2") && Some("2") in seen3;
    assert NewCount(ids[3..], seen3) == 0;
    assert ids[2..][1..] == ids[3..] && seen3 == (seen + [Some("5"), Some("4")]) + [Some("3")];
    assert NewCount(ids[2..], seen + [Some("5"), Some("4")]) == 1;
    assert ids[1..][1..] == ids[2..] && seen + [Some("5"), Some("4")] == (seen + [Some("5")]) + [Some("4")];
    assert NewCount(ids[1..], seen + [Some("5")]) == 2;
  }

  lemma BoundaryIds(x: seq<Post>, rs: seq<Record>)
    requires x == [PostWithId("5"), PostWithId("4"), PostWithId("3"), PostWithId("2"), PostWithId("1")]
    requires rs == [Record(PostWithId("2"), true), Record(PostWithId("1"), true)]
    ensures PostIds(x) == [Some("5"), Some("4"), Some("3"), Some("2"), Some("1")]
    ensures RecordIds(rs) == [Some("2"), Some("1")]
  {
  }

  /** Feed `[p5, p4, p3, p2, p1]` against a collection holding `p2` and `p1`: the run
      inserts `p5, p4, p3` and stops at the fourth existence check, on `p2`. */
  lemma StopAtBoundaryExample()
    ensures var feed := [[PostWithId("5"), PostWithId("4"), PostWithId("3"), PostWithId("2"), PostWithId("1")]];
            var rs := [Record(PostWithId("2"), true), Record(PostWithId("1"), true)];
            var s := Stream(feed, Budget(None));
            && Synced(rs, feed, None) == rs + AsRecords([PostWithId("5"), PostWithId("4"), PostWithId("3")])
            && NewCount(PostIds(s), RecordIds(rs)) == 3 < |s|
  {
    var x := [PostWithId("5"), PostWithId("4"), PostWithId("3"), PostWithId("2"), PostWithId("1")];
    var rs := [Record(PostWithId("2"), true), Record(PostWithId("1"), true)];
    SinglePageStream(x);
    BoundaryIds(x, rs);
    BoundaryCount(RecordIds(rs));
    assert x[..3] == [PostWithId("5"), PostWithId("4"), PostWithId("3")];
  }

  /** Three unsent records whose second send fails: the first and the third end
      the run sent, the second stays unsent. */
  lemma PartialFailureExample(a: Post, b: Post, c: Post)
    ensures Deliver([Record(a, false), Record(b, false), Record(c, false)], [true, false, true])
            == [Record(a, true), Record(b, false), Record(c, true)]
  {
    var rs := [Record(a, false), Record(b, false), Record(c, false)];
    assert rs[..2][..1] == rs[..1] && rs[..1][..0] == [];
    assert UnsentCount(rs[..0]) == 0;
    assert UnsentCount(rs[..1]) == 1;
    assert UnsentCount(rs[..2]) == 2;
    assert Deliver(rs[..1], [true, false, true]) == [Record(a, true)];
    assert Deliver(rs[..2], [true, false, true]) == [Record(a, true), Record(b, false)];
    assert rs[..3] == rs;
  }

  // ---------------------------------------------------------------------------
  // the imperative part

  /** The document collection `db.posts`. */
  class PostCollection {
    var records: seq<Record>

    constructor ()
      ensures records == []
    {
      records := [];
    }

    /** `count_documents({})`. */
    function CountDocuments(): (n: nat)
      reads this
      ensures n == 0 <==> records == []
    {
      |records|
    }

    /** `count_documents({"post_id": id}) > 0`. */
    predicate HasPostId(id: Option<string>)
      reads this
      ensures HasPostId(id) <==> id in RecordIds(records)
    {
      exists i :: 0 <= i < |records| && records[i].post.PostId() == id
    }

    /** `count_documents({"sent_to_telegram": False})`. */
    function CountUnsent(): (n: nat)
      reads this
      ensures n == 0 <==> forall i :: 0 <= i < |records| ==> records[i].sentToTelegram
    {
      UnsentCountZero(records);
      UnsentCount(records)
    }

    /** `insert_one(doc)`. */
    method InsertOne(doc: Record)
      modifies this
      ensures records == old(records) + [doc]
    {
      records := records + [doc];
    }

    /** `update_one({"_id": id}, {"$set": {"sent_to_telegram": True}})`; no match, no change. */
    method MarkSent(id: nat)
      modifies this
      ensures id < |old(records)| ==>
                records == old(records)[id := old(records)[id].(sentToTelegram := true)]
      ensures id >= |old(records)| ==> records == old(records)
    {
      if id < |records| {
        records := records[id := records[id].(sentToTelegram := true)];
      }
    }
  }

  /** `Facebook2Telegram`: the sync controller and the dispatcher over one collection. */
  class Facebook2Telegram {
    const posts: PostCollection

    constructor (collection: PostCollection)
      ensures posts == collection
    {
      posts := collection;
    }

    /** `get_new_posts(max_posts)`: walks the feed and inserts each post until one
        whose `post_id` is already stored. Also returns how many existence checks
        ran and how many pages the browser loaded. */
    method GetNewPosts(feed: seq<seq<Post>>, maxPosts: Option<int>) returns (checks: nat, loaded: nat)
      requires |feed| > 0
      modifies posts
      ensures posts.records == Synced(old(posts.records), feed, maxPosts)
      ensures var s := Stream(feed, Budget(maxPosts));
              var n := NewCount(PostIds(s), RecordIds(old(posts.records)));
              && checks == (if n < |s| then n + 1 else n)
              && 1 <= loaded <= |feed|
              && (n < |s| ==> OnPage(feed, n, loaded))
              && (n == |s| == Budget(maxPosts) ==> OnPage(feed, n - 1, loaded))
    {
      ghost var rs0 := posts.records;
      ghost var s := Stream(feed, Budget(maxPosts));
      ghost var n := NewCount(PostIds(s), RecordIds(rs0));
      var walker := new FeedWalker(feed, maxPosts);
      checks := 0;
      while true
        invariant fresh(walker) && walker.Valid() && !walker.finished
        invariant walker.pages == feed && walker.budget == Budget(maxPosts)
        invariant |walker.Yielded()| <= n <= |s| && walker.Yielded() == s[..|walker.Yielded()|]
        invariant posts.records == rs0 + AsRecords(walker.Yielded())
        invariant checks == |walker.Yielded()|
        invariant 0 < |walker.Yielded()| ==> OnPage(feed, |walker.Yielded()| - 1, walker.loaded)
        decreases |s| - |walker.Yielded()|
      {
        var stop, checked := SyncOne(walker, s, rs0);
        if checked {
          checks := checks + 1;
        }
        if stop {
          loaded := walker.loaded;
          return;
        }
      }
    }

    /** One turn of the loop of `get_new_posts`: the next post of the feed is
        looked up by `post_id` and inserted unsent, unless the feed is exhausted
        or the post is stored, which ends the run. `checked` tells whether a
        lookup ran. */
    method SyncOne(walker: FeedWalker<Post>, ghost s: seq<Post>, ghost rs0: seq<Record>)
      returns (stop: bool, checked: bool)
      requires walker.Valid() && !walker.finished
      requires s == Stream(walker.pages, walker.budget)
      requires |walker.Yielded()| <= NewCount(PostIds(s), RecordIds(rs0))
      requires walker.Yielded() == s[..|walker.Yielded()|]
      requires posts.records == rs0 + AsRecords(walker.Yielded())
      modifies walker, posts
      ensures walker.Valid() && walker.Yielded() == s[..|walker.Yielded()|]
      ensures checked <==> |old(walker.Yielded())| < |s|
      ensures checked ==> |walker.Yielded()| == |old(walker.Yielded())| + 1
      ensures !checked ==> stop && walker.Yielded() == old(walker.Yielded())
      ensures stop ==> posts.records == rs0 + AsRecords(s[..NewCount(PostIds(s), RecordIds(rs0))])
      ensures stop && checked ==>
                && |walker.Yielded()| == NewCount(PostIds(s), RecordIds(rs0)) + 1
                && OnPage(walker.pages, |walker.Yielded()| - 1, walker.loaded)
      ensures !stop ==> && !walker.finished && posts.records == rs0 + AsRecords(walker.Yielded())
                        && |walker.Yielded()| <= NewCount(PostIds(s), RecordIds(rs0))
                        && OnPage(walker.pages, |walker.Yielded()| - 1, walker.loaded)
      ensures |old(walker.Yielded())| == walker.budget ==> !checked && walker.loaded == old(walker.loaded)
    {
      ghost var m := |walker.Yielded()|;
      var p := walker.Next();
      if p.None? {
        return true, false;
      }
      assert m < |s| && walker.Yielded() == s[..m] + [p.value];
      InsertStep(rs0, s, m);
      checked := true;
      if posts.HasPostId(p.value.PostId()) {
        return true, true;
      }
      posts.InsertOne(Record(p.value, false));
      InsertNext(rs0, s, m);
      stop := false;
    }

    /** `send_posts_to_telegram()`: returns at once when nothing is unsent (no bot
        is created); otherwise tries every unsent record in store order and sets
        the flag of each one whose send succeeded, going on after a failure. */
    method SendPostsToTelegram(outcome: seq<bool>, toMarkdown: string -> string)
      returns (botCreated: bool, attempted: seq<string>)
      modifies posts
      ensures botCreated <==> UnsentCount(old(posts.records)) > 0
      ensures attempted == Messages(UnsentPosts(old(posts.records)), toMarkdown)
      ensures posts.records == Deliver(old(posts.records), outcome)
    {
      ghost var rs0 := posts.records;
      var unsentPostsCount := posts.CountUnsent();
      if unsentPostsCount == 0 {
        NothingUnsent(rs0, outcome);
        return false, [];
      }
      botCreated := true;
      attempted := DispatchAll(outcome, toMarkdown);
    }

    /** The loop of `send_posts_to_telegram` over the unsent records, in store order. */
    method DispatchAll(outcome: seq<bool>, toMarkdown: string -> string) returns (attempted: seq<string>)
      modifies posts
      ensures attempted == Messages(UnsentPosts(old(posts.records)), toMarkdown)
      ensures posts.records == Deliver(old(posts.records), outcome)
    {
      ghost var rs0 := posts.records;
      attempted := [];
      var i, k := 0, 0;
      assert rs0[..0] == [] && rs0[0..] == rs0;
      while i < |posts.records|
        invariant |posts.records| == |rs0| && i <= |rs0|
        invariant k == UnsentCount(rs0[..i])
        invariant posts.records == Deliver(rs0[..i], outcome) + rs0[i..]
        invariant attempted == Messages(UnsentPosts(rs0[..i]), toMarkdown)
      {
        k, attempted := DispatchOne(i, k, outcome, toMarkdown, attempted, rs0);
        i := i + 1;
      }
      assert rs0[..i] == rs0 && rs0[i..] == [];
    }

    /** One turn of the dispatcher loop, on record `i`: an unsent record is tried,
        as attempt number `k`, and marked sent when the attempt succeeds; a sent
        record is passed over. */
    method DispatchOne(i: nat, k: nat, outcome: seq<bool>, toMarkdown: string -> string,
                       attempted: seq<string>, ghost rs0: seq<Record>)
      returns (k': nat, attempted': seq<string>)
      requires i < |rs0| && |posts.records| == |rs0|
      requires k == UnsentCount(rs0[..i])
      requires posts.records == Deliver(rs0[..i], outcome) + rs0[i..]
      requires attempted == Messages(UnsentPosts(rs0[..i]), toMarkdown)
      modifies posts
      ensures |posts.records| == |rs0|
      ensures k' == UnsentCount(rs0[..i + 1])
      ensures posts.records == Deliver(rs0[..i + 1], outcome) + rs0[i + 1..]
      ensures attempted' == Messages(UnsentPosts(rs0[..i + 1]), toMarkdown)
    {
      var r := posts.records[i];
      DispatchStep(rs0, outcome, i);
      SetAtBoundary(Deliver(rs0[..i], outcome), rs0[i..], r.(sentToTelegram := true));
      assert r == rs0[i] && rs0[i..][1..] == rs0[i + 1..];
      k', attempted' := k, attempted;
      if !r.sentToTelegram {
        MessagesSnoc(UnsentPosts(rs0[..i]), r.post, toMarkdown);
        attempted' := attempted + [Message(r.post, toMarkdown)];
        if Accepts(outcome, k) {
          posts.MarkSent(i);
        }
        k' := k + 1;
      }
    }

    /** `update()`: the bootstrap count on an empty collection, the default cap
        otherwise, then always the dispatcher. */
    method Update(feed: seq<seq<Post>>, outcome: seq<bool>, toMarkdown: string -> string)
      returns (botCreated: bool, attempted: seq<string>)
      requires |feed| > 0
      modifies posts
      ensures var synced := Synced(old(posts.records), feed, RequestedMaxPosts(old(posts.records) == []));
              && posts.records == Deliver(synced, outcome)
              && attempted == Messages(UnsentPosts(synced), toMarkdown)
              && (botCreated <==> UnsentCount(synced) > 0)
    {
      var checks, loaded;
      if posts.CountDocuments() > 0 {
        checks, loaded := GetNewPosts(feed, None);
      } else {
        checks, loaded := GetNewPosts(feed, Some(FIRST_TIME_POSTS_COUNT));
      }
      botCreated, attempted := SendPostsToTelegram(outcome, toMarkdown);
    }
  }

  lemma LazyFeedFacts()
    ensures var feed := [[PostWithId("3"), PostWithId("2")], [PostWithId("1")]];
            var s := Stream(feed, Budget(None));
            && |s| == 3 && |Flatten(feed[..1])| == 2
            && NewCount(PostIds(s), RecordIds([Record(PostWithId("2"), true)])) == 1
  {
    var feed := [[PostWithId("3"), PostWithId("2")], [PostWithId("1")]];
    assert feed[..1][..0] == [] && feed[..2][..1] == feed[..1] && feed[..2] == feed;
    assert Flatten(feed[..1]) == feed[0];
    assert Flatten(feed) == [PostWithId("3"), PostWithId("2"), PostWithId("1")];
    var s := Stream(feed, Budget(None));
    assert s == Flatten(feed);
    var ids := PostIds(s);
    assert ids == [Some("3"), Some("2"), Some("1")];
    assert RecordIds([Record(PostWithId("2"), true)]) == [Some("2")];
    assert ids[1..][0] == Some("2") && Some("2") in [Some("2")] + [Some("3")];
    assert NewCount(ids[1..], [Some("2")] + [Some("3")]) == 0;
  }

  /** The second post of page 1 is already stored: the run inserts the first post,
      makes two existence checks and the browser never loads page 2. */
  method LazyStopExample() returns (checks: nat, loaded: nat)
    ensures checks == 2 && loaded == 1
  {
    var feed := [[PostWithId("3"), PostWithId("2")], [PostWithId("1")]];
    var collection := new PostCollection();
    collection.InsertOne(Record(PostWithId("2"), true));
    assert collection.records == [Record(PostWithId("2"), true)];
    var app := new Facebook2Telegram(collection);
    checks, loaded := app.GetNewPosts(feed, None);
    LazyFeedFacts();
  }

  lemma BudgetFeedFacts()
    ensures var feed := [[PostWithId("2"), PostWithId("1")], [PostWithId("0")]];
            var s := Stream(feed, Budget(Some(2)));
            && |s| == 2 == Budget(Some(2)) && |Flatten(feed[..1])| == 2
            && NewCount(PostIds(s), RecordIds([])) == 2
  {
    var feed := [[PostWithId("2"), PostWithId("1")], [PostWithId("0")]];
    assert feed[..1][..0] == [] && feed[..2][..1] == feed[..1] && feed[..2] == feed;
    assert Flatten(feed[..1]) == feed[0];
    assert Flatten(feed) == [PostWithId("2"), PostWithId("1"), PostWithId("0")];
    var s := Stream(feed, Budget(Some(2)));
    assert s == [PostWithId("2"), PostWithId("1")];
    var ids := PostIds(s);
    assert ids == [Some("2"), Some("1")];
    assert RecordIds([]) == [];
    assert ids[1..][1..] == [];
    assert NewCount(ids[1..], [] + [Some("2")]) == 1;
  }

  /** On an empty collection with a budget of two, the run inserts both posts of
      page 1, makes two existence checks, and the budget ends the generator
      before the browser loads page 2. */
  method BudgetStopExample() returns (checks: nat, loaded: nat)
    ensures checks == 2 && loaded == 1
  {
    var feed := [[PostWithId("2"), PostWithId("1")], [PostWithId("0")]];
    var collection := new PostCollection();
    var app := new Facebook2Telegram(collection);
    checks, loaded := app.GetNewPosts(feed, Some(2));
    BudgetFeedFacts();
  }
}
