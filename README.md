# kartinke photo catalogue, in Dafny

`kartinke.py` runs a Telegram bot that catalogues the photos posted to a
channel and finds them again from an inline query. This project models the
bot's catalogue logic and proves what it guarantees. The Postgres table and
the SQLite table are replaced by one in-memory table keyed by `message_id`.

- `text.dfy` (module `Text`) holds the Python string operations the bot
  relies on:
  - `str.lower`, limited to ASCII letters;
  - `str.strip()` and `str.split()`, both using the `str.isspace` separator set;
  - `" ".join`;
  - the substring test behind `LIKE '%q%'`;
  - `str` of an integer, with its inverse for reading digits back.
- `tags.dfy` (module `Tags`) turns a caption into its tags string. It keeps
  each `#`-word without its `#` and joins the results with single spaces.
- `catalogue.dfy` (module `Catalogue`) holds the table and its operations:
  - a `PhotoStore` class whose `rows` field is the table;
  - `SavePhoto`, the insert-or-replace of `save_photo`;
  - `SearchPhotos`, a scan of the keys from the largest down. It does what
    `SELECT ... WHERE ... ORDER BY message_id DESC LIMIT` followed by the
    append loop does.
  - The result of `SearchPhotos` is fixed by the function `Search`. It is
    also characterised, without saying how it is computed, by the predicate
    `IsSearchAnswer`. `Search` satisfies `IsSearchAnswer`, and nothing else does.
- `bot.dfy` (module `Bot`) holds the two handlers:
  - `new_channel_post` files a photo post;
  - `inline_search` normalises the query, answers a blank query with nothing,
    and otherwise answers with one cached photo per row found.

## Model

| member | source | states |
|---|---|---|
| Text.IsSpace | kartinke.py:115 | Python's `str.isspace` set: the separators of `split()` at line 115 and of `strip()` at line 124. |
| Text.Contains | kartinke.py:85 | The `LIKE '%q%'` test built at line 85 and applied at lines 91 and 101: the query occurs somewhere in the string as a contiguous piece. |
| Text.Lower | kartinke.py:84 | Lower-cases each character of the string, keeping its length. The same function stands for `text.lower()` at lines 84 and 124 and for SQL `LOWER` at lines 91 and 101. |
| Text.Strip | kartinke.py:124 | `strip()` gives the empty string exactly when the input is all separators. Otherwise the result begins and ends with a non-separator. The result is the slice `s[i..j]` where everything before `i` and everything from `j` on is separators, so only the separators at each end are removed. |
| Text.Words | kartinke.py:115 | `split()` yields only non-empty runs without separators, and yields none exactly when the input is all separators. |
| Text.WordsSplitAtGaps | kartinke.py:115 | For every string, laying its separator gaps and its `split()` words alternately rebuilds the string. Every gap is separators only. So the words are the input's runs of non-separators, in order, whatever mix of spaces, tabs and newlines parts them. |
| Text.GapsBetweenWords | kartinke.py:115 | Two neighbouring words of `split()` are parted by at least one separator in the input. So no run is cut in two. |
| Text.Join | kartinke.py:115 | `" ".join`: the words in order, with a single space between neighbours. |
| Text.WordsOfJoin | kartinke.py:115 | Splitting a single-space join of words gives the same words back. |
| Text.JoinContains | kartinke.py:115 | Every joined word occurs in the joined string. |
| Text.ContainsLower | kartinke.py:84-91 | If a query occurs in a caption, its lower-cased form occurs in the lower-cased caption. So the search is case-insensitive. |
| Text.PieceOfLowerIsLower | kartinke.py:124 | Every piece of a lower-cased string is already lower-case. |
| Text.IntToString | kartinke.py:133 | `str(message_id)`: the decimal digits, with a leading minus for a negative number. |
| Text.ParseIntToString | kartinke.py:133 | Reading the digits of `str(message_id)` back gives the `message_id`. |
| Text.IntToStringInjective | kartinke.py:133 | Different `message_id`s give different `str(message_id)` ids. |
| Tags.IsHashWord | kartinke.py:115 | `w.startswith("#")`: the word is non-empty and its first character is `#`. |
| Tags.HashTags | kartinke.py:115 | The list comprehension: for each word that starts with `#`, in order, that word without its first character. There are never more tags than words. |
| Tags.ExtractTags | kartinke.py:115 | The stored tags string: the single-space join of the tags of the caption's `split()` words. What it contains is stated by the Tags lemmas below. |
| Tags.HashTagsMembership | kartinke.py:115 | A string is an extracted tag exactly when some word of the caption is `#` followed by that string. |
| Tags.HashTagsAppend | kartinke.py:115 | Tags keep caption order: the tags of two runs of words are the tags of each, side by side. |
| Tags.NoHashWordNoTags | kartinke.py:114-115 | A caption with no `#`-word, and the empty caption of a post without one, gives the empty tags string. |
| Tags.TagsRoundTrip | kartinke.py:115 | When no `#`-word is the bare sign, splitting the tags string gives back exactly the extracted tags, in caption order. |
| Tags.TagInTags | kartinke.py:115 | Every tag of a caption occurs in its stored tags string. |
| Catalogue.Upsert | kartinke.py:62-79 | After insert-or-replace, the key holds exactly the new row. Every other key keeps its row or stays absent. The row count grows by one only when the key was new. |
| Catalogue.UpsertTwice | kartinke.py:66-77 | Saving one `message_id` twice leaves the second call's row and does not add a row. |
| Catalogue.Matches | kartinke.py:91 | The `WHERE` clause at lines 91 and 101: the lower-cased caption or the lower-cased tags contain the query as a substring. |
| Catalogue.MatchingIds | kartinke.py:91 | The `WHERE` clause at lines 91 and 101 applied to the whole table: the keys whose rows satisfy `Matches`. |
| Catalogue.SortedDesc | kartinke.py:92 | `ORDER BY message_id DESC` at lines 92 and 102: the keys of a set, each once, in strictly descending order. |
| Catalogue.Take | kartinke.py:93 | `LIMIT` at lines 93 and 103: the first `limit` keys, or all of them when there are fewer. |
| Catalogue.Search | kartinke.py:89-107 | The reference result of a search: the keys of the matching rows, sorted largest first, cut to `limit`, each with its row's `file_id` and `caption`. |
| Catalogue.SearchResultsMatch | kartinke.py:83-107 | A search returns at most `limit` rows. Each row is a table row whose lower-cased caption or tags contain the query, with that row's `file_id` and `caption`. |
| Catalogue.SearchIsAnswer | kartinke.py:90-106 | The search meets its declarative contract: the returned rows have strictly descending `message_id`s, and every matching row left out is older than every row returned. No matching row is left out when fewer than `limit` are returned. |
| Catalogue.AnswerIsUnique | kartinke.py:90-103 | Any result list meeting that contract is the search result. So two backends that both filter by `Matches` return the same rows in the same order. The two real backends do this only for queries and captions in ASCII without `%`, `_` or `\` (see "Left out"). |
| Catalogue.NewestFirstUnique | kartinke.py:92-93 | A list of keys that is newest-first and cut to `limit` is the largest `limit` keys sorted in descending order. |
| Catalogue.NewestMatchComesFirst | kartinke.py:92-93 | A newly saved matching row whose `message_id` is larger than that of every other match comes first in any search with a positive limit. |
| Catalogue.ScanStep | kartinke.py:92-106 | Visiting the largest unvisited key, and keeping it when it matches, preserves the scan invariant. |
| Catalogue.ScanDone | kartinke.py:93-107 | A scan that has run out of keys or reached `limit` holds exactly the search result. |
| Catalogue.PhotoStore.constructor | kartinke.py:24-50 | The table right after `init_db` on the first start, which is empty. |
| Catalogue.PhotoStore.SavePhoto | kartinke.py:54-80 | `save_photo` replaces the table with its insert-or-replace by `message_id`. |
| Catalogue.PhotoStore.SearchPhotos | kartinke.py:83-107 | `search_photos` returns the search result for the lower-cased query. |
| Bot.CaptionText | kartinke.py:114 | `message.caption or ""`: the caption, or the empty string when the post has none. |
| Bot.NewChannelPost | kartinke.py:111-117 | A post without a photo leaves the table unchanged. A post with a photo is saved under its `message_id` with the largest size's `file_id`, the caption (or `""`), the caption's tags and its date. |
| Bot.FoundByCaption | kartinke.py:84-91 | A saved post passes the `WHERE` clause of the search for any query whose lower-cased form equals the lower-cased form of a piece of its caption. So `sunset` and `SUNSET` both match `Beautiful Sunset`. Whether the row is then among the `LIMIT` rows returned is stated by `Catalogue.SearchIsAnswer`. |
| Bot.FoundByTag | kartinke.py:91-115 | A saved post passes the `WHERE` clause of the search for any query whose lower-cased form equals the lower-cased form of a piece of its stored tags string. That includes a piece spanning the space that joins two tags, which need not occur in the caption: `a b` for the caption `#a x #b`. |
| Bot.NormalizeQuery | kartinke.py:124-125 | The normalised query is empty exactly when the raw query is all separators. It is already lower-case, so lower-casing it again in `search_photos` changes nothing. |
| Bot.CachedOf | kartinke.py:132-136 | The result for one row: `id` is `str(message_id)`, with the row's `file_id` and caption. |
| Bot.CachedResults | kartinke.py:129-136 | The result loop makes one cached photo per row, in row order, with `id` equal to `str(message_id)` and the row's `file_id` and caption. |
| Bot.DistinctIds | kartinke.py:131-133 | Rows in strictly descending `message_id` order give results with pairwise distinct ids. |
| Bot.SearchIdsDistinct | kartinke.py:130-133 | The results built from a search never share an id. |
| Bot.InlineSearch | kartinke.py:121-138 | Every answer has `cache_time` 10. A blank query gets no results, whatever the table holds. Any other query gets one result per search row, in order, with pairwise distinct ids. |

## Left out

- The Telegram transport is not modelled: aiogram, the dispatcher decorators, polling, the bot token and the database URL bootstrap are I/O and process setup. `query.answer` becomes the returned `Answer`, and the message becomes a `ChannelPost` value.
- The database clients are replaced by the map field of `PhotoStore`. This covers the asyncpg pool, aiosqlite connections, `commit`, and `async`/`await`. Concurrent handlers are not modelled.
- `init_db` and `create_table.py` are not part of this model. They only send schema DDL. `CREATE TABLE IF NOT EXISTS` keeps the rows of an earlier run, so `PhotoStore.constructor` models only the first start, with an empty table. Every lemma and every method contract holds for any table, not only one built from empty.
- The time-zone normalisation and ISO formatting of `created_at` are left out. `created_at` is an opaque `Timestamp` copied into the row unchanged.
- `%` and `_` in a query are wildcards for SQL `LIKE`, because the query is not escaped. On the Postgres branch, `\` is also special, because it is `LIKE`'s default escape character there. SQLite's `LIKE` has no default escape. So on Postgres the query `c\at` finds captions containing `cat`. The model matches plain substrings only, so its results agree with the source only for queries without `%` and `_`, and, on Postgres, without `\`.
- Lower-casing maps only the ASCII letters A-Z, and Python `str.lower` and SQL `LOWER` are modelled as one function. For non-ASCII letters, the two differ in the source (SQLite's `LOWER` maps only ASCII), and the model does not capture that difference.
- The broad `except` of `inline_search` only logs. No guarantee is modelled for it. The model raises no exceptions.
- `print` logging is left out.
- Bot.InlineSearch: the model cannot observe that a blank query skips `search_photos`. It proves instead that the answer to a blank query does not depend on the table.
- Catalogue.PhotoStore.SearchPhotos: `limit` is a natural number. A negative SQL `LIMIT`, which the source never passes (it always passes 50), is not modelled.
- Integer widths of `message_id` (a 64-bit key in the database) are not modelled. Keys are unbounded integers.
