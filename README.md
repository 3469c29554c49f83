# notplaying: a Dafny model of the bot's selection and bookkeeping logic

The #notplaying bot reads the statuses ("toots") of one Mastodon account. It keeps
a cache of them, refreshed by paging through the account's timeline. It draws random
toots until it has found two `ARTIST - "TITLE"` announcements by different artists
(a "supergroup"). It then posts an invented credit `A1 vs A2 - T1 T2` inside a fixed
hashtag template.

This project models the logic of `bot.py` between the Mastodon client and the post:

- supergroup selection (`get_supergroup`, `get_random_toot`);
- the pagination cursor `max_id`;
- the backfill loop `get_historical_toots`;
- the refresh append of `main`;
- the text builders `remix` and `formatted_toot`.

Foreign behaviour enters as parameters:

- `html.unescape` and `np_pattern.findall` form an `Extractor` of two total functions.
- `random.choice` becomes a finite sequence of draw indices.
- `account_statuses` becomes a page oracle from cursor to page.

Files:

- `wrappers.dfy`: module `Wrappers`, with `Option` (Python's `None`) and `Result`
  (a raised exception as a value).
- `bot.dfy`: module `Bot`, the model of `bot.py`.

How the model reads the code:

- **Selection.** `Select` is the selection loop as a function of the draws.
  `GetSupergroup` is the loop itself, proved equal to `Select`.
  - `NoToots` is the `IndexError` that `random.choice` raises on an empty list.
  - `OutOfDraws` means the finite draw sequence ended before two entries were found.
    The source would keep drawing forever.
- **The guard at bot.py:71.** `m[0] not in now_playing_toots` compares a tuple with
  dictionaries. It is kept in the model as `InToots`, built on `TupleEqualsStatus`,
  which is always false. `GuardNeverRejects` states that it lets everything through.
- **The cursor.** `max_id` returns the smallest id. Line 109 passes that value as
  `since_id`, so the refresh is anchored at the oldest toot, not the newest.
  `Refresh` keeps this behaviour. `RefreshRefetchesHeld` shows its consequence: toots
  already held are fetched again.
- **Backfill.** `GetHistoricalToots` returns the list and a ghost log of the `max_id`
  cursors it passed to the client. Its contract gives:
  - the resulting list, in terms of the cursors;
  - the rule that produces each cursor;
  - the bound of 10 calls;
  - the exit condition.

Facts about the code that the model keeps as they are:

- Backfill does not stop when a page comes back empty. Once `toots` is bound, starting
  from fewer than 1000 toots, such a client makes it run all 10 rounds (bot.py:92-94).
- The refresh cursor is the minimum id (bot.py:88, 109).
- The backfill stops at 1000 toots held (bot.py:92).
- `remix` has a single template (bot.py:43).

## Model

| member | source | states |
|---|---|---|
| `Bot.FormattedToot` | bot.py:26-30 | The post is the fixed hashtag header, then the credit, then a final newline. Its length and each part's position are exact. |
| `Bot.ParseToot` | bot.py:26-30 | Inverse of the template: it succeeds exactly on texts framed by the header and a final newline, and formatting what it returns gives the text back. |
| `Bot.ParseFormatted` | bot.py:26-30 | Round trip: parsing a formatted post returns the original credit. |
| `Bot.Remix` | bot.py:43 | Fewer than four arguments in total raise IndexError. With two artists and two titles the credit is exactly `a1 vs a2 - t1 t2`. |
| `Bot.MaxId` | bot.py:87-88 | `None` exactly for the empty list. Otherwise the result is the id of some toot and is at most every toot's id, so it is the minimum. |
| `Bot.MaxIdOfExtension` | bot.py:87-88 | Appending toots to a non-empty list never raises the cursor. |
| `Bot.TupleEqualsStatus` | bot.py:71 | Reference definition of Python `==` between an `(artist, title)` tuple and a status dictionary. It is always false: `tuple.__eq__` and `dict.__eq__` return `NotImplemented` for each other, so `==` falls back to identity, and a fresh `findall` tuple is never the same object as a status dict. |
| `Bot.InToots` | bot.py:71 | Reference definition of `m[0] in now_playing_toots`: some toot of the list compares equal to the match under `TupleEqualsStatus`. |
| `Bot.GuardNeverRejects` | bot.py:71 | The tuple-in-statuses guard is never true, so it rejects nothing. |
| `Bot.Absorb` | bot.py:70-73 | A draw with no match, or with an artist already chosen, leaves the supergroup unchanged. Otherwise the draw appends exactly its first match. |
| `Bot.AbsorbKeepsPartial` | bot.py:68-73 | From fewer than two entries, one draw keeps at most two entries with distinct artists, each the first match of some toot. |
| `Bot.Select` | bot.py:68-74 | Reference definition of the selection loop as a function of the draws. It stops with the group once it holds two entries. It gives `NoToots` on an empty toot list and `OutOfDraws` when the draws end. Otherwise it absorbs the next draw's matches and continues. |
| `Bot.SelectYieldsSupergroup` | bot.py:58-74 | A finished selection extends its starting group and holds exactly two entries. Their artists differ, and each is the first match of some toot. Running out of draws leaves fewer than two. `NoToots` happens exactly for an empty toot list. |
| `Bot.SelectCompletesFromOne` | bot.py:69-73 | With one entry held, any later draw whose first match has a new artist completes the selection. |
| `Bot.SelectCompletes` | bot.py:58-74 | Selection finishes whenever two draws, in either order, have first matches with different artists. |
| `Bot.ChosenFromOneNeedsNewArtist` | bot.py:69-73 | From one entry, the selection completes only through a draw whose first match has a different artist. |
| `Bot.ChosenNeedsTwoArtists` | bot.py:58-74 | Starting from no entries, a completed selection implies two draws, in order, whose first matches have different artists. |
| `Bot.SelectChosenIff` | bot.py:58-74 | The selection completes exactly when the draws hold two first matches with different artists. Otherwise it runs out of draws, which is where the source loops forever, or finds no toots. |
| `Bot.GetSupergroup` | bot.py:45-74 | The loop's result equals `Select` on the same draws. `NoToots` happens exactly for an empty toot list. A returned group is a supergroup. Running out of draws leaves a partial group. |
| `Bot.Accumulate` | bot.py:93 | Reference definition of `toots +=` over a run: the starting list followed by the page returned for each cursor, in call order. |
| `Bot.AccumulateExtends` | bot.py:92-93 | Appending pages never drops or reorders the toots already held. |
| `Bot.AccumulatePrefix` | bot.py:92-94 | The list after fewer client calls is a prefix of the list after more. |
| `Bot.AccumulateBounded` | bot.py:93 | If every page holds at most 100 toots, each call adds at most 100 toots. |
| `Bot.BackfillStep` | bot.py:92-94 | One more round, made below 1000 toots with the current minimum id as cursor, appends exactly that page. It keeps the cursor rule and the record that every call was made below 1000. |
| `Bot.CursorsNonIncreasing` | bot.py:92-94 | Once a cursor is set, later cursors are set too and are never newer. |
| `Bot.GetHistoricalToots` | bot.py:90-96 | At most 10 client calls. The loop stops only after 10 calls or at 1000 toots held, and each call was made below 1000. Each call's `max_id` is the minimum id of the list held at that moment. The list never shrinks, and it equals the bound-variable version of the loop. |
| `Bot.BackfillLoop` | bot.py:91-96 | Reference definition of the backfill loop, with the binding of the local `toots` explicit. Reading it while unbound raises UnboundLocalError. Otherwise it stops after 10 rounds or at 1000 toots, and each round appends the page for the current `max_id`. |
| `Bot.GetHistoricalTootsAsWritten` | bot.py:90-96 | Reference definition of `get_historical_toots` as written: the loop entered with `toots` unbound. |
| `Bot.HistoricalAsWrittenRaises` | bot.py:90-92 | As written, backfill raises UnboundLocalError for every client. |
| `Bot.BackfillLoopBound` | bot.py:91-96 | With `toots` bound on entry, the same loop never raises and its result extends the starting list. |
| `Bot.Refresh` | bot.py:109 | The refreshed list is the held list followed by the page fetched with `since_id = max_id(toots)`. |
| `Bot.RefreshRefetchesHeld` | bot.py:109 | The since-cursor is the oldest id. If the server returns every held toot newer than that cursor, and some held toot is newer, the refreshed list contains a duplicate. |

## Findings

| source | as written | input that shows it | evidently intended | confidence | as-written member | corrected member |
|---|---|---|---|---|---|---|
| bot.py:90-96 | `toots` is local to `get_historical_toots` because `+=` assigns it. It is never bound before `len(toots)` at line 92, so the first loop test raises UnboundLocalError. | any client, e.g. one that always returns an empty page | the loop starts from a given list (in `main`, the empty cache) and pages backwards from it | high (not executed) | `Bot.HistoricalAsWrittenRaises` | `Bot.GetHistoricalToots` |

`Bot.GetHistoricalTootsAsWritten` is the as-written function. `Bot.GetHistoricalToots`
takes the starting list as a parameter `initial`, and the rest of the model uses it.

## Left out

- Mastodon client construction, `account_statuses` and `toot` (bot.py:93, 101,
  104-107, 115): network I/O. Listing statuses is a page oracle. Posting is not modelled.
- `write_cache` and `get_cached_toots` (bot.py:76-85): file I/O and JSON serialisation.
- `time.sleep(0.2)` and all logging: side effects with no stated behaviour.
- The regular expression `np_pattern` (bot.py:14) and `html.unescape`: foreign
  library behaviour, modelled as the uninterpreted functions of `Extractor`.
- `random.choice`: its uniform distribution is not modelled, only the sequence of
  indices it returns.
- `main` (bot.py:103-119) is not modelled beyond the refresh append of line 109.
  This covers the `get_cached_toots() or ...` fallback, the `zip(*...)` unpacking and
  the environment token.
- `GetSupergroup`: termination and the result are stated only for a finite draw
  sequence. Infinite draws that never yield two distinct artists, where the source
  loops forever, appear as `OutOfDraws`. By `SelectChosenIff`, a finite draw sequence
  completes exactly when it holds two first matches with different artists.
- `AccumulateBounded`: assumes the server honours `limit=100`. The source does not
  check page sizes.
- Fixed-width integers: ids are unbounded integers, as in Python.
