# facebook2telegram in Dafny

facebook2telegram copies the posts of a Facebook feed into a Telegram channel.
The program exists in two copies, and this project models the sync engine of both:

- `source/facebook2telegram.py` keeps its posts in a document collection. Each
  record there has a `sent_to_telegram` flag.
- The root `facebook2telegram.py` keeps its posts in a JSON `Config`. It sends
  only the posts that the current run found.

The model covers:

- the paginating generator `iter_posts`, which both copies share;
- the stop-at-first-known-post rule of `get_new_posts`;
- the `update` entry points;
- the two Telegram dispatchers;
- the text cleanup of `fbparser.py` and of `Post.short_text`;
- the `Post` / `Posts` / `Config` models of `models.py`.

Files, one module each:

| file | module | what it holds |
|---|---|---|
| `wrappers.dfy` | `Wrappers` | `Option` |
| `pytext.dfy` | `PyText` | the parts of Python's `str` the cleanup uses: ASCII character classes, `strip`, `split`/`join` on one character, `replace` |
| `pagination.dfy` | `Pagination` | `iter_posts`: the class `FeedWalker`, one suspended generator; the specification function `Stream` |
| `sync.dfy` | `Sync` | the stopping rule `NewCount`, its characterisation and its consequences |
| `delivery.dfy` | `Delivery` | the post URL, the message text, the send oracle |
| `fbparser.dfy` | `FbParser` | `is_string_contentent`, `filter_contentent_strings`, `prettify_text` |
| `models.dfy` | `Models` | `Post.id`, `Post.__eq__`, the class `Posts`, the class `Config` |
| `store_sync.dfy` | `StoreSync` | `source/facebook2telegram.py`: `Post`, `short_text`, the class `PostCollection`, the class `Facebook2Telegram` |
| `config_sync.dfy` | `ConfigSync` | root `facebook2telegram.py`: `can_update`, the class `FB2Telegram` |

Abstract inputs:

- **The browser** is a non-empty `seq<seq<Post>>`, one element per feed page in
  the order the page parser returns posts. Page `i` has a link to a next page
  iff `i + 1 < |pages|`. `FeedWalker.loaded` counts the pages the browser has
  loaded, so the model can show that a run which stops early never loads the
  next page.
- **Telegram** is an outcome oracle `outcome: seq<bool>`. The `k`-th send of one
  dispatcher run succeeds iff `k < |outcome| && outcome[k]`. A send the oracle
  has no answer for fails, as a raised exception would.
- **html2text** is a function parameter `toMarkdown: string -> string`. The
  cleanup is modelled from its markdown output onward.
- **`datetime.now()`** is an integer number of seconds passed in by the caller.
- **The Mongita collection** is an in-memory class. It holds its documents in
  insertion order, and a document's `_id` is its position.

Where the two copies differ, or where the code does something a reader might
not expect, the model follows the code:

- The collection copy sends unsent records in collection order
  (`find({"sent_to_telegram": False})`, `source/facebook2telegram.py:204`),
  which is newest-first within one run, because the feed is read newest-first.
  The root copy sends `reversed(posts)` (`facebook2telegram.py:166`), which is
  oldest-first. The model keeps both orders.
- The root copy keeps no sent flag. A post whose send fails there is never
  retried, because the next run only sends newly found posts.
- Post extraction raises on a fragment without a footer or without `data-ft`;
  it does not skip the fragment. No skipping behaviour is modelled or claimed.
- The default `last_update_datetime` of `Config` is computed once, when the
  class is defined, not when a `Config` is created. The model takes that moment
  as the `classDefinedAt` parameter. A fresh config may still update at once
  (`FreshConfigCanUpdate`).
- Posts with no `top_level_post_id` all share the id `None`. Both copies
  therefore treat any two such posts as the same post. The model keeps this:
  ids are `Option<string>` and are compared by equality.

## Model

| member | source | states |
|---|---|---|
| PyText.IsAlpha | fbparser.py:24 | `str.isalpha` on one character, restricted to ASCII letters; no contract of its own |
| PyText.IsDigit | fbparser.py:24 | `str.isdigit` on one character, restricted to ASCII digits; no contract of its own |
| PyText.IsAlnum | source/facebook2telegram.py:53 | `str.isalnum` on one character (ASCII letters and digits); a letter or digit is neither whitespace nor punctuation, so the three classes of `is_char_acceptable` overlap only where expected |
| PyText.IsSpace | source/facebook2telegram.py:53 | `str.isspace` on one character (ASCII whitespace and the separators `\x1c` to `\x1f`); no contract of its own |
| PyText.IsPunctuation | source/facebook2telegram.py:53 | membership in `string.punctuation`; no contract of its own |
| PyText.HasAlnum | source/facebook2telegram.py:54-55 | `is_line_acceptable`: `any(ch.isalnum() for ch in line)`, over ASCII letters and digits; no contract of its own |
| PyText.LStripSpec | fbparser.py:30 | the left half of `str.strip()` keeps a suffix, drops only whitespace, and stops at the first non-space |
| PyText.RStripSpec | fbparser.py:30 | the right half of `str.strip()` keeps a prefix, drops only whitespace, and stops at the last non-space |
| PyText.Strip | source/facebook2telegram.py:65 | `line.strip()` is no longer than the line and neither starts nor ends with whitespace |
| PyText.StripIsInfix | source/facebook2telegram.py:65 | `line.strip()` is an infix of the line with only whitespace before and after it |
| PyText.StripIdempotent | source/facebook2telegram.py:65 | stripping a stripped line changes nothing |
| PyText.StripKeepsChars | fbparser.py:30 | a non-space character is in the stripped string iff it is in the string |
| PyText.StripKeepsAbsent | fbparser.py:30 | `strip` brings in no character |
| PyText.StripKeepsAlnum | source/facebook2telegram.py:65 | a line holds a letter or digit iff its stripped form does, so testing before or after `strip` is the same test |
| PyText.Split | fbparser.py:36 | `text.split('\n')` never returns an empty list |
| PyText.SplitPiecesLackSep | fbparser.py:36 | no piece of `text.split('\n')` contains `'\n'` |
| PyText.JoinSplit | fbparser.py:36-38 | `'\n'.join(text.split('\n'))` gives back `text` |
| PyText.SplitJoin | fbparser.py:36-38 | splitting the join of separator-free pieces gives back the pieces |
| PyText.SplitAround | fbparser.py:36 | splitting `a + sep + b` gives the pieces of `a` followed by the pieces of `b` |
| PyText.SplitLength | fbparser.py:36 | a text with `n` separators splits into `n + 1` pieces |
| PyText.Join | fbparser.py:38 | `sep.join(ls)`; no contract of its own, its properties are `JoinCons`, `JoinSplit`, `SplitJoin` and `JoinKeepsAbsent` |
| PyText.JoinCons | fbparser.py:38 | `'\n'.join` of a list with a head: the head, then the separator and the join of the rest when the rest is non-empty |
| PyText.JoinKeepsAbsent | fbparser.py:38 | a character other than the separator that is in no piece is not in the join |
| PyText.SplitKeepsAbsent | fbparser.py:36 | a character absent from the text is absent from every piece |
| PyText.Replace | fbparser.py:34-35 | `str.replace`, matching left to right without overlap; no contract of its own, its properties are the four lemmas that follow |
| PyText.ReplaceNotLonger | fbparser.py:34-35 | a replacement no longer than the pattern never lengthens the text |
| PyText.ReplaceRemoves | fbparser.py:34 | `replace('#', '')` leaves no `#` |
| PyText.ReplaceKeepsAbsent | fbparser.py:35 | `replace` brings in no character absent from the text and from the replacement |
| PyText.ReplaceKeepsCount | fbparser.py:34-35 | `replace` keeps the number of line breaks when neither pattern nor replacement holds one |
| Pagination.Budget | source/facebook2telegram.py:141 | `max_posts or 200`: `None` and `0` give 200; any other value is kept; never 0 |
| Pagination.Stream | source/facebook2telegram.py:140-162 | what the generator yields when drained is a prefix of the posts in page order; it is at most `budget` long when `budget` is positive; it is all the posts or exactly `budget` of them; it is non-empty when the feed is |
| Pagination.FlattenPrefix | source/facebook2telegram.py:146-150 | the posts of the first `i` pages followed by the first `j` posts of page `i` are a prefix of the feed in page order |
| Pagination.StreamContinues | source/facebook2telegram.py:149-153 | the stream goes past `n` posts while the feed has more and the budget allows |
| Pagination.YieldStep | source/facebook2telegram.py:149-150 | the next post of the current page is the next post of the stream, and it lies on the page the browser shows |
| Pagination.FeedWalker.constructor | source/facebook2telegram.py:140-145 | the generator starts with the budget `max_posts or 200`, nothing yielded, one page loaded |
| Pagination.FeedWalker.Next | source/facebook2telegram.py:146-162 | one resumption, same code as facebook2telegram.py:84-99: a post iff the stream has one more; that post is the next of the stream; a returned generator stays returned and loads no page; once `budget` posts were yielded the resumption returns without loading a page; the page holding the post is the last page loaded |
| Pagination.FeedWalker.YieldPost | source/facebook2telegram.py:149-150 | `yield post` for the next post of the current page |
| Pagination.FeedWalker.Resume | source/facebook2telegram.py:151-153 | after a yield, `posts_count -= 1`; the generator returns exactly when the count reaches zero, which is when the stream is used up by the budget |
| Pagination.FeedWalker.SkipExhaustedPages | source/facebook2telegram.py:154-162 | on a used-up page, clicks the next-page link while there is one, or returns when there is none; this happens only after every post of the page was yielded, and a page with a post left is never left |
| Sync.RequestedMaxPosts | source/facebook2telegram.py:186-193 | an empty store asks for `FIRST_TIME_POSTS_COUNT` (10) posts, any other store for the default cap |
| Sync.NewCount | source/facebook2telegram.py:177-180 | the number of posts a run inserts is at most the number the stream yields; the next three lemmas characterise it |
| Sync.NewCountStopsAtFirstSeen | source/facebook2telegram.py:177-180 | the number of posts inserted is the run of ids at the head of the stream that are neither stored nor met earlier in the stream, and the id right after it is not fresh |
| Sync.StopsAtFirstSeenUnique | source/facebook2telegram.py:177-180 | only one count has that property |
| Sync.NewCountIsFirstSeen | source/facebook2telegram.py:177-180 | both directions: a count stops at the first seen id iff it is the count the sync produces |
| Sync.NewCountStep | source/facebook2telegram.py:178-181 | after `m` inserts, the next post is found in the store (old records plus the inserts) iff the run stops there |
| Sync.NoDuplicateIds | source/facebook2telegram.py:178-181 | a store with distinct ids keeps distinct ids after the sync, even when the stream repeats an id |
| Sync.SecondRunInsertsNothing | source/facebook2telegram.py:177-180 | a second run over a stream with the same head inserts nothing |
| Delivery.PostUrl | source/facebook2telegram.py:206 | `urljoin(BASE_URL, post_id)` is the base URL followed by the id, or the base URL alone for a missing or empty id |
| Delivery.PostUrlOneLine | source/facebook2telegram.py:206 | the URL of an id without a line break has no line break |
| Delivery.LinkLine | facebook2telegram.py:168 | the markdown link `[link_text](url)`; no contract of its own |
| Delivery.MessageText | facebook2telegram.py:168 | the message `f"{short_text}\n[{link_text}]({url})"`; no contract of its own, its property is `MessageLines` |
| Delivery.MessageLines | facebook2telegram.py:168 | the lines of `f"{short_text}\n[{link_text}]({url})"` are the lines of the short text followed by the link alone |
| Delivery.Delivered | facebook2telegram.py:169-179 | the messages that reach the channel are at most the messages attempted |
| Delivery.DeliveredSnoc | facebook2telegram.py:169-179 | one more send attempt: its message reaches the channel iff the oracle accepts that attempt |
| Delivery.DeliveredExactly | facebook2telegram.py:169-179 | per-item failure isolation, both directions: a text reaches the channel iff some attempt that carried it succeeded, whatever happened to the attempts before it |
| Delivery.AllAcceptedDeliversAll | facebook2telegram.py:166-179 | when every attempt succeeds, every message reaches the channel, in order |
| FbParser.IsStringContentent | fbparser.py:22-26 | true iff some character is a letter or a digit |
| FbParser.FilterContententStrings | fbparser.py:29-30 | no longer than its input; every kept string is stripped and holds a letter or a digit |
| FbParser.FilterAppend | fbparser.py:29-30 | the filter works element by element and keeps the order |
| FbParser.FilterSingle | fbparser.py:29-30 | one string is kept, stripped, iff it is contentful |
| FbParser.FilterKeepsAbsent | fbparser.py:29-30 | the filter brings in no character |
| FbParser.FilterJoinNotLonger | fbparser.py:29-30 | the joined filtered lines are no longer than the joined lines |
| FbParser.PrettifyText | fbparser.py:33-38 | `prettify_text` as the composition `replace('#', '')`, `replace('**', '*')`, `split`, `filter_contentent_strings`, `join`; it has no contract of its own, its properties are the four lemmas that follow |
| FbParser.PrettifyRemovesHash | fbparser.py:33-38 | the output of `prettify_text` holds no `#` |
| FbParser.PrettifyLinesAreClean | fbparser.py:36-38 | every line of a non-empty output is stripped and contentful |
| FbParser.PrettifyFewerLines | fbparser.py:33-38 | the output has no more lines than the input |
| FbParser.PrettifyNotLonger | fbparser.py:33-38 | the output is never longer than the input |
| Models.MetadataId | models.py:17-19 | the id lookup both copies share: `Some(metadata['top_level_post_id'])` iff the key is present, `None` otherwise |
| Models.Post.Id | models.py:17-19 | `Post.id` is `MetadataId(metadata)` |
| Models.Post.Equals | models.py:24-25 | two posts are equal iff both lack an id or both carry the same id |
| Models.EqualsIgnoresContent | models.py:24-25 | equality ignores every field but the id |
| Models.EqualsIsEquivalence | models.py:24-25 | `__eq__` is reflexive, symmetric and transitive |
| Models.Posts.constructor | models.py:31-32 | `Posts()` is empty |
| Models.Posts.Len | models.py:40-41 | `len(posts)` is the length of the list |
| Models.Posts.At | models.py:34-35 | `posts[index]` with Python indexing: negative indices count from the end; out of range is an `IndexError` (`None`) |
| Models.Posts.Contains | facebook2telegram.py:131 | `post in posts` iff some element is equal to it by `__eq__` |
| Models.Posts.Append | models.py:43-44 | `posts << p` appends `p`: one longer, `p` last, the earlier elements unchanged |
| Models.Config.constructor | models.py:50-55 | the defaults: empty posts, wait 5, update every 60, link text `link`, last update `5 * 60 + 1` seconds before the class was defined |
| StoreSync.Post.PostId | source/facebook2telegram.py:47-48 | `post_id` is `MetadataId(metadata)`, the same lookup as `Post.id` of `models.py` |
| StoreSync.IsCharAcceptable | source/facebook2telegram.py:52-53 | line breaks, letters and digits always pass `is_char_acceptable` |
| StoreSync.KeepAcceptable | source/facebook2telegram.py:61 | `"".join(filter(is_char_acceptable, text))` is no longer than the text |
| StoreSync.KeepAcceptableIsAcceptable | source/facebook2telegram.py:61 | every character left by the filter passes `is_char_acceptable` |
| StoreSync.KeepAcceptableAppend | source/facebook2telegram.py:61 | the filter works character by character and keeps the order: filtering `a + b` is filtering `a` then `b` |
| StoreSync.KeepAcceptableSingle | source/facebook2telegram.py:61 | one character is kept iff it passes `is_char_acceptable` |
| StoreSync.KeepAcceptableKeepsAll | source/facebook2telegram.py:61 | a text of acceptable characters passes the filter unchanged |
| StoreSync.KeepAcceptableKeepsAbsent | source/facebook2telegram.py:61 | the character filter brings in no character |
| StoreSync.DropMarkup | source/facebook2telegram.py:58-60 | after the three `replace` calls the text holds no `#`, `*` or `_`, and every other character occurs exactly as often as before |
| StoreSync.AcceptableLines | source/facebook2telegram.py:62-66 | no more lines than the input; every kept line is stripped and holds a letter or digit |
| StoreSync.AcceptableLinesAppend | source/facebook2telegram.py:62-66 | the comprehension works line by line and keeps the order |
| StoreSync.AcceptableLinesSingle | source/facebook2telegram.py:62-66 | one line is kept, as `line.strip()`, iff its stripped form holds a letter or digit; so every acceptable line is kept |
| StoreSync.AcceptableLinesKeepAbsent | source/facebook2telegram.py:62-66 | the line filter brings in no character |
| StoreSync.CleanLines | source/facebook2telegram.py:62-67 | `"\n".join` of the acceptable lines; no contract of its own, its property is the next lemma |
| StoreSync.CleanLinesKeepsAbsent | source/facebook2telegram.py:62-67 | the joined clean lines hold no character that is absent from the text, other than line breaks |
| StoreSync.ShortText | source/facebook2telegram.py:51-67 | `short_text` after html2text: `DropMarkup`, then `KeepAcceptable`, then `CleanLines`; no contract of its own, its properties are the three lemmas that follow |
| StoreSync.ShortTextDropsMarkup | source/facebook2telegram.py:51-67 | `short_text` holds no `#`, `*` or `_` |
| StoreSync.ShortTextCharsAcceptable | source/facebook2telegram.py:51-67 | every character of `short_text` passes `is_char_acceptable` |
| StoreSync.ShortTextLinesAreClean | source/facebook2telegram.py:62-67 | every line of a non-empty `short_text` is stripped and holds a letter or digit |
| StoreSync.Message | source/facebook2telegram.py:206-207 | the text `f"{post.short_text}\n[link]({post_url})"`; no contract of its own, its property is the next lemma |
| StoreSync.MessageEndsWithLink | source/facebook2telegram.py:206-207 | the last line of a message is the markdown link to the post |
| StoreSync.AsRecords | source/facebook2telegram.py:181 | inserted documents carry their post and start with `sent_to_telegram` False |
| StoreSync.IdsOfInserted | source/facebook2telegram.py:178-181 | the ids stored after `m` inserts are the old ids followed by the first `m` ids of the stream |
| StoreSync.InsertStep | source/facebook2telegram.py:178-181 | after `m` inserts, `count_documents({"post_id": ...}) > 0` holds for the next post iff the run stops there |
| StoreSync.Synced | source/facebook2telegram.py:175-181 | the collection after the sync keeps the old records unchanged as its prefix, and every added record is unsent |
| StoreSync.SyncedIdsDistinct | source/facebook2telegram.py:178-181 | no `post_id` is stored twice after the sync when none was before, even if the feed repeats one |
| StoreSync.SyncIdempotent | source/facebook2telegram.py:175-181 | a second sync over the same feed, with any budget, stores nothing more |
| StoreSync.UnsentCount | source/facebook2telegram.py:197-199 | `count_documents({"sent_to_telegram": False})` over the records is at most their number |
| StoreSync.UnsentCountPrefix | source/facebook2telegram.py:197-199 | the unsent records of a prefix are no more than those of the whole, and fewer when an unsent record follows the prefix |
| StoreSync.UnsentPosts | source/facebook2telegram.py:204 | one post per unsent record |
| StoreSync.Messages | source/facebook2telegram.py:206-207 | one text per post: its short text and the link to it |
| StoreSync.Deliver | source/facebook2telegram.py:204-221 | the dispatcher keeps the number of records |
| StoreSync.DeliverAt | source/facebook2telegram.py:204-221 | after the dispatcher, record `i` keeps its post, and it is sent iff it was sent already or the attempt at its rank among the unsent succeeded |
| StoreSync.DeliverOnlySetsFlags | source/facebook2telegram.py:204-221 | the dispatcher never changes a post and never clears a flag; a record stays unsent iff it was unsent and its own attempt failed |
| StoreSync.UnsentPostsAt | source/facebook2telegram.py:204 | an unsent record is attempted at its rank among the unsent records |
| StoreSync.UnsentPostsExactly | source/facebook2telegram.py:204 | both directions: a post is attempted iff some unsent record holds it |
| StoreSync.NothingUnsent | source/facebook2telegram.py:197-201 | with nothing unsent, nothing is attempted and nothing changes |
| StoreSync.NextRunRetriesOnlyFailures | source/facebook2telegram.py:204-221 | a dispatcher run never adds unsent records, and removes at least one when some attempt succeeds |
| StoreSync.UnsentCountZero | source/facebook2telegram.py:197-200 | no unsent record is counted iff every record is sent |
| StoreSync.StopAtBoundaryExample | source/facebook2telegram.py:177-180 | feed `[p5, p4, p3, p2, p1]` against a store holding `p2, p1` inserts `p5, p4, p3` and stops on `p2` |
| StoreSync.PartialFailureExample | source/facebook2telegram.py:208-221 | three unsent records whose second send fails end as sent, unsent, sent |
| StoreSync.PostCollection.constructor | source/facebook2telegram.py:171-173 | a new collection is empty |
| StoreSync.PostCollection.CountDocuments | source/facebook2telegram.py:186 | `count_documents({})` is 0 iff the collection is empty |
| StoreSync.PostCollection.HasPostId | source/facebook2telegram.py:178 | `count_documents({"post_id": id}) > 0` iff some stored record has that `post_id` |
| StoreSync.PostCollection.CountUnsent | source/facebook2telegram.py:197-199 | `count_documents({"sent_to_telegram": False})` is 0 iff every record is sent |
| StoreSync.PostCollection.InsertOne | source/facebook2telegram.py:181 | `insert_one` appends the document |
| StoreSync.PostCollection.MarkSent | source/facebook2telegram.py:219-221 | `update_one` sets the flag of the record with that `_id` and changes nothing else; with no match nothing changes |
| StoreSync.Facebook2Telegram.constructor | source/facebook2telegram.py:165-173 | the controller works on the given collection |
| StoreSync.Facebook2Telegram.GetNewPosts | source/facebook2telegram.py:175-181 | the collection becomes `Synced(old, feed, max_posts)`; it makes one existence check per inserted post, plus one on the post it stops at; the page holding that post is the last page loaded; when the budget runs out instead, the page holding the last post yielded is the last page loaded |
| StoreSync.Facebook2Telegram.SyncOne | source/facebook2telegram.py:177-181 | one turn of the loop: the next post is checked, then inserted unsent or the run ends; with the budget used up no check runs and no page is loaded |
| StoreSync.Facebook2Telegram.SendPostsToTelegram | source/facebook2telegram.py:196-221 | a bot is created iff something is unsent; the texts attempted are those of the unsent records in store order; the new collection is `Deliver(old, outcome)` |
| StoreSync.Facebook2Telegram.DispatchAll | source/facebook2telegram.py:204-221 | the loop of the dispatcher: the texts attempted are those of the unsent records in store order, and the new collection is `Deliver(old, outcome)` |
| StoreSync.Facebook2Telegram.DispatchOne | source/facebook2telegram.py:205-221 | one turn of that loop: a sent record is skipped; an unsent one is attempted and, iff the attempt succeeds, marked sent by `_id` |
| StoreSync.Facebook2Telegram.Update | source/facebook2telegram.py:185-194 | sync with 10 posts on an empty collection and the default cap otherwise, then always the dispatcher |
| StoreSync.LazyStopExample | source/facebook2telegram.py:146-153 | a run that stops on the second post of page 1 makes two checks and never loads page 2 |
| StoreSync.BudgetStopExample | source/facebook2telegram.py:149-153 | with `max_posts` 2 and two new posts on page 1, the generator returns after the second: two checks, page 2 never loaded |
| ConfigSync.CanUpdate | facebook2telegram.py:143-145 | `can_update`, over whole seconds; no contract of its own, its use is stated by `FB2Telegram.Update` and `SecondUpdateWaits` |
| ConfigSync.FreshConfigCanUpdate | models.py:52-53 | a config with the default `last_update_datetime` may update at once |
| ConfigSync.NewPosts | facebook2telegram.py:128-141 | the new posts are a prefix of the stream, and they stop at the first post whose id is already in the config |
| ConfigSync.CollectStep | facebook2telegram.py:130-135 | after `m` appends, `post in self.config.posts` holds for the next post iff the run stops there |
| ConfigSync.NewPostsIdsDistinct | facebook2telegram.py:130-135 | a config with distinct ids keeps distinct ids after the new posts are appended |
| ConfigSync.NewPostsIdempotent | facebook2telegram.py:128-141 | a second run over the same feed finds no new post, whatever its budget |
| ConfigSync.Render | facebook2telegram.py:167-168 | the text sent for one post, with the configured `link_text`; no contract of its own |
| ConfigSync.RenderReversed | facebook2telegram.py:166-168 | one text per post of `reversed(posts)` |
| ConfigSync.RenderReversedAt | facebook2telegram.py:166-168 | the `j`-th text sent is for the `j`-th post from the end, so the oldest new post goes first |
| ConfigSync.FB2Telegram.constructor | facebook2telegram.py:102-109 | the controller works on the loaded config |
| ConfigSync.FB2Telegram.GetNewPosts | facebook2telegram.py:128-141 | `new_posts` is `NewPosts(old posts, feed, max_posts)`; `config.posts` grows by exactly those posts, in order; `last_update_datetime` becomes `now`; the other settings are unchanged |
| ConfigSync.FB2Telegram.CollectNewPosts | facebook2telegram.py:129-135 | the loop appends each new post to both `config.posts` and `new_posts` |
| ConfigSync.FB2Telegram.CollectOne | facebook2telegram.py:130-135 | one turn of the loop: the next post is tested with `in`, then appended to both lists or the run ends |
| ConfigSync.FB2Telegram.SendPostsToTelegram | facebook2telegram.py:163-179 | the texts attempted are those of `reversed(posts)`; the texts delivered are exactly those whose own attempt succeeded; the config is not changed |
| ConfigSync.FB2Telegram.Update | facebook2telegram.py:147-161 | the feed is fetched iff `can_update` holds; when it fails `None` is returned, nothing is sent and nothing changes; otherwise sync with 10 posts on an empty config and the default cap otherwise, and the sender is called iff something new was found, with the texts of `reversed(found)`; `wait_before_next_update`, `update_every` and `link_text` are never changed |
| ConfigSync.SecondUpdateWaits | facebook2telegram.py:138-151 | after an update that ran, a second `update` is refused iff it comes less than `60 * wait_before_next_update` seconds after the first one finished; a refused second run leaves the posts and `last_update_datetime` of the first |

## Left out

- Selenium is not modelled. That covers the browser lifecycle, `login`, `sleep`, `atexit`, `__del__` and the `with FBConnector` cleanup. The browser is the sequence of pages.
- The BeautifulSoup page parsing is not modelled (`parse_feed_page`, `parse_article_tag`, `parse_short_post`). It is a foreign HTML library. The feed is given as the parsed posts of each page.
- The html2text conversion is not modelled; it is the parameter `toMarkdown`. The cleanup is modelled on its markdown output.
- Python's Unicode character classes are not modelled: `isalpha`, `isdigit`, `isalnum`, `isspace` and `string.punctuation` are restricted to ASCII. A non-ASCII letter is not alphanumeric in the model.
- Telegram (`telebot`) is not modelled. It is the outcome oracle; the chat id, parse mode and preview flags are not modelled.
- Mongita disk storage is not modelled. The collection is in memory and `_id` is the record's position. Mongita's own `_id` assignment for a document whose `asdict` carries `_id: None` is not modelled.
- The dispatcher of the collection copy reads the unsent records once, before its first update. The cursor's interplay with `update_one` is not modelled.
- The JSON persistence of the root copy is not modelled: `save_config`, `load_config`, `slugify` and the config file name. The config is an object in memory.
- `datetime.now()` is not modelled; it is replaced by the integer parameters `now`, `checkedAt`, `doneAt` and `classDefinedAt`.
- `timedelta` arithmetic is modelled as whole seconds.
- Pydantic validation and JSON encoding are not modelled.
- `Posts.__iter__` is not modelled as a separate member. `Posts.Contains` models the one use of it (`in`), and the sender reads `posts.root` directly.
- `Post.post_datetime`, `Post.__str__` and `Posts.__repr__` are not modelled. `update_every` is only a stored default; nothing in the core reads it.
- The per-post `parse_datetime` and `full_text` fields are carried as values and never read.
- `urljoin` is modelled only for ids that are plain path segments (Facebook ids are digit strings). Ids holding `/`, `:`, `?` or `..` are not resolved as URL references.
- The logging is not modelled: loguru setup, the first-line `log_text` of each new post, and the exception log of a failed send.
- `van.py` (packaging) and `source/main.py` (wiring) are not part of this model.
- `get_app` and the credentials lookup are not modelled; they are configuration I/O.
