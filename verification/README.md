# Sales ledger of the sales-leaderboard bot

A Dafny model of the sales-ledger core of the Discord sales-leaderboard bot
(`sales-leaderboard-bot/bot.py`), with the Discord client, SQLite and the
scheduler taken out. The model covers five parts:

- **Amount extractor.** `MONEY_RE` and `parse_amounts` become a hand-written
  left-to-right scanner over `seq<char>` that returns integer cents. It is
  proved equal to a declarative description of the pattern's language and of
  `re.finditer`'s non-overlapping, longest-at-each-start matches.
- **Money formatter.** `fmt_money` on non-negative cents: `$`, the whole part
  grouped by threes with `,`, `.`, and two fraction digits. It round-trips
  through the extractor.
- **Ledger store.** The `sales` table becomes a sequence of rows in
  insertion order plus the next AUTOINCREMENT id. The operations are:
  - insert-or-ignore on the unique message index;
  - update and delete by message;
  - delete by row id;
  - per-user sums over a half-open window, largest first, with the 1-based
    ranks of `lb_lines`;
  - the grand total;
  - the latest row of a user in a window under `ORDER BY ts DESC, id DESC`.
- **Per-message lifecycle.** `on_message` and `on_message_edit` become a
  choice of action (insert, update, delete, nothing) from the old and new
  extracted amounts, which is then applied to the store.
- **Undo.** The latest-entry lookup followed by delete-by-id.

Modules, one per file:

| module | file | contents |
|---|---|---|
| `Wrappers` | `wrappers.dfy` | the `Option` type |
| `Chars` | `chars.dfy` | digits, Python's `\s`, decimal strings |
| `MoneyPattern` | `money_pattern.dfy` | the pattern's language and a token's value |
| `Extractor` | `extractor.dfy` | the scanner and the `finditer` semantics |
| `Formatter` | `formatter.dfy` | `fmt_money` |
| `Ledger` | `ledger.dfy` | the table and its mutations |
| `Aggregation` | `aggregation.dfy` | the window queries and the ranking |
| `Undo` | `undo.dfy` | `/undo` |
| `Lifecycle` | `lifecycle.dfy` | the message events |
| `Timestamps` | `timestamps.dfy` | how the source compares timestamp texts |
| `ExtractorExamples` | `extractor_examples.dfy` | worked inputs |

Amounts are cents (`nat`). Timestamps are integer instants (`int`), and a
window is a pair of instants `[start, end)`. The source stores and compares
ISO-8601 texts instead. `Timestamps` models that text comparison as written
and shows where it differs from comparing instants (see "## Findings").

## Model

| member | source | states |
|---|---|---|
| Extractor.ParseAmounts | sales-leaderboard-bot/bot.py:55-60 | absent text (`text or ""`) and text without a `$` give 0 |
| Extractor.ParseAmountsSpec | sales-leaderboard-bot/bot.py:55-60 | the result is the sum of the values of the matches `re.finditer` yields, for any list that meets the finditer description |
| Extractor.FindAllSpec | sales-leaderboard-bot/bot.py:57 | the scanner's matches are ordered, non-overlapping, each a longest token at its start with the token's value, and every position where a token starts lies inside one of them |
| Extractor.FinditerUnique | sales-leaderboard-bot/bot.py:57 | the finditer description has exactly one answer on a text |
| Extractor.MatchAtSound | sales-leaderboard-bot/bot.py:26 | a match of the scanner at `i` is the longest token of `MONEY_RE` starting at `i`, and its value is that token's value with commas removed |
| Extractor.MatchAtComplete | sales-leaderboard-bot/bot.py:26 | where the scanner finds nothing at `i`, no token of `MONEY_RE` starts at `i` |
| Extractor.MatchAtIsToken | sales-leaderboard-bot/bot.py:26 | the text the scanner takes is a token of the pattern: `$`, whitespace, a 1-3 digit head with `,ddd` groups or a plain digit run, then an optional `.d` or `.dd` |
| Extractor.MatchAtLongest | sales-leaderboard-bot/bot.py:26 | no token starting at the scanner's position extends beyond its match |
| Extractor.NoTokenIsZero | sales-leaderboard-bot/bot.py:55-60 | a text in which no token starts yields 0 |
| ExtractorExamples.SampleAmount | sales-leaderboard-bot/bot.py:55-60 | `$1,234.56 and $5` yields 123956 cents: both matches are summed and the comma is dropped |
| ExtractorExamples.SubCentAmount | sales-leaderboard-bot/bot.py:26 | `$0.001` yields 0: the fraction takes at most two digits |
| ExtractorExamples.LongGroupAmount | sales-leaderboard-bot/bot.py:26 | `$1,2345` yields 123400: the grouped alternative is tried first and takes one `,234` group |
| Formatter.FormatMoneyIsToken | sales-leaderboard-bot/bot.py:104 | `fmt_money(c)` is one whole token of `MONEY_RE` worth exactly `c` cents |
| Formatter.RoundTrip | sales-leaderboard-bot/bot.py:104 | `parse_amounts(fmt_money(c)) == c` for every non-negative cent amount |
| Formatter.ThousandsValue | sales-leaderboard-bot/bot.py:104 | the `,` grouping is an integer part of the pattern whose digits, commas removed, spell the whole part |
| Formatter.Thousands | sales-leaderboard-bot/bot.py:104 | below 10 the whole part is one digit (`0` for zero), below 1000 it is 1-3 plain digits, from 1000 on it is 1-3 digits followed by `,ddd` groups; a positive whole part has no leading zero |
| Formatter.Decimal | sales-leaderboard-bot/bot.py:104 | the digits of the whole part are non-empty, denote it, and have no leading zero when it is positive |
| Formatter.FormatMoney | sales-leaderboard-bot/bot.py:104 | the text starts with `$`, and from one dollar on the digit after `$` is not `0` |
| Formatter.FormatMoneyShape | sales-leaderboard-bot/bot.py:104 | `$`, then the whole dollars as an integer part of the pattern (1-3 plain digits below 1000, `,ddd`-grouped from 1000 on), then `.`, then exactly two digits denoting the cents; under ten dollars the text is five characters, so below one dollar it is `$0.dd` |
| Ledger.EmptyStore | sales-leaderboard-bot/bot.py:31-42 | the new table is empty and meets the table invariant |
| Ledger.Find | sales-leaderboard-bot/bot.py:42 | the lookup by message returns a row of that message, and none exactly when no row has it |
| Ledger.InsertSale | sales-leaderboard-bot/bot.py:62-68 | INSERT OR IGNORE: a new message gets a row with the next id and the instant `now`; an existing row stays as it was; other messages are untouched; rows are only appended |
| Ledger.InsertIgnoresDuplicate | sales-leaderboard-bot/bot.py:42 | a second insert for a recorded message leaves the table equal to what it was |
| Ledger.InsertSaleValid | sales-leaderboard-bot/bot.py:42 | inserting a positive amount keeps one row per message, increasing ids and positive amounts |
| Ledger.UpdateAmount | sales-leaderboard-bot/bot.py:70-72 | only the amount of rows of that message changes: every row keeps its position and every other field (id, guild, channel, message, owner, timestamp), and rows of other messages keep their amount |
| Ledger.UpdateAmountFind | sales-leaderboard-bot/bot.py:70-72 | the message's row gets the new amount, an absent message stays absent, other messages are untouched |
| Ledger.UpdateAmountValid | sales-leaderboard-bot/bot.py:70-72 | updating to a positive amount keeps the table invariant |
| Ledger.DeleteByMessage | sales-leaderboard-bot/bot.py:74-76 | the remaining rows are exactly the rows of other messages |
| Ledger.DeleteByMessageFind | sales-leaderboard-bot/bot.py:74-76 | the message has no row afterwards and every other message keeps its row |
| Ledger.DeleteByMessageValid | sales-leaderboard-bot/bot.py:74-76 | deleting keeps the table invariant |
| Ledger.DeleteById | sales-leaderboard-bot/bot.py:100-102 | the remaining rows are exactly the rows with another id |
| Ledger.DeleteByIdValid | sales-leaderboard-bot/bot.py:100-102 | deleting by id keeps the table invariant |
| Aggregation.WindowUsers | sales-leaderboard-bot/bot.py:81-82 | the `GROUP BY user_id` groups: each user with a row in the window, once |
| Aggregation.SortDesc | sales-leaderboard-bot/bot.py:82 | `ORDER BY SUM(amount) DESC`: a reordering that is sorted by descending sum |
| Aggregation.SortDescKeeps | sales-leaderboard-bot/bot.py:82 | sorting keeps the sum of the totals and the distinctness of the users |
| Aggregation.SalesByUserSpec | sales-leaderboard-bot/bot.py:78-84 | every user with a row in the window appears exactly once with the sum of their rows there, no other user appears, the list is largest first, and with positive amounts every sum is positive |
| Aggregation.TotalsAgree | sales-leaderboard-bot/bot.py:78-89 | the per-user sums add up to `total_between` |
| Aggregation.TotalZeroIffEmpty | sales-leaderboard-bot/bot.py:86-89 | with positive amounts, `total_between` is 0 exactly when no row lies in the window |
| Aggregation.RankedKeeps | sales-leaderboard-bot/bot.py:108 | `enumerate(rows, 1)` numbers the lines 1..n in the list's order with each entry's user and total, so a sorted list gets smaller ranks for larger totals, distinct users stay distinct, and the board lists exactly the list's users |
| Aggregation.LeaderboardSpec | sales-leaderboard-bot/bot.py:106-111 | the leaderboard ranks 1..n, largest total first, each user once with their sum in the window, exactly the users active in it |
| Undo.LatestEntry | sales-leaderboard-bot/bot.py:91-98 | the result is the user's row in the window with the greatest `(ts, id)`, or none exactly when the user has no row there |
| Undo.UndoLatest | sales-leaderboard-bot/bot.py:151-157 | when nothing is removed the table is unchanged |
| Undo.UndoScope | sales-leaderboard-bot/bot.py:151-157 | `/undo` removes exactly the caller's latest row of the day, keeps the invariant, never removes another user's row or a row outside the day, and changes nothing when the caller has no row that day |
| Lifecycle.NewMessageAction | sales-leaderboard-bot/bot.py:126-128 | a new message inserts exactly when its amount is positive, and otherwise does nothing |
| Lifecycle.EditAction | sales-leaderboard-bot/bot.py:136-140 | an edit inserts when old is 0 and new positive, updates to new when both are positive and differ, deletes when old is positive and new is 0, and does nothing exactly when old equals new |
| Lifecycle.OnMessage | sales-leaderboard-bot/bot.py:123-131 | messages outside a guild, from bots, or with amount 0 leave the table unchanged |
| Lifecycle.OnMessageEdit | sales-leaderboard-bot/bot.py:133-140 | edits outside a guild, from bots, or that keep the amount leave the table unchanged |
| Lifecycle.NewMessageSync | sales-leaderboard-bot/bot.py:123-128 | a new tracked message gets a row with its amount, owner and arrival instant exactly when its amount is positive |
| Lifecycle.RedeliveryIgnored | sales-leaderboard-bot/bot.py:128 | a message that already has a row changes nothing when it arrives again |
| Lifecycle.EditSync | sales-leaderboard-bot/bot.py:133-140 | a table that agrees with the text before an edit agrees with the text after it |
| Lifecycle.EditKeepsTimestamp | sales-leaderboard-bot/bot.py:133-140 | no edit moves a recorded row's timestamp, id, owner or message: afterwards the row is deleted, unchanged (an ignored insert or a no-op) or the same row with the new amount |
| Lifecycle.EventsLocal | sales-leaderboard-bot/bot.py:123-140 | message events touch no other message's row |
| Lifecycle.EventsKeepValid | sales-leaderboard-bot/bot.py:123-140 | message events keep one row per message and every stored amount positive |
| Lifecycle.ApplyValid | sales-leaderboard-bot/bot.py:127-140 | an insert or update with a positive amount, or a delete, keeps the table invariant |
| Timestamps.BoundaryRowMisfiled | sales-leaderboard-bot/bot.py:67 | as written: a row stamped exactly at a window's start with zero microseconds falls outside that window and inside the one before |
| Timestamps.ChicagoMidnightSale | sales-leaderboard-bot/bot.py:83 | as written: a sale at 2024-03-10T06:00:00 UTC, local midnight in America/Chicago, counts for 2024-03-09, not 2024-03-10 |
| Timestamps.BoundaryRowFiled | sales-leaderboard-bot/bot.py:82 | corrected, on instants: consecutive day windows split time at their common bound, a row at the bound belongs to the later day, and no row is in both |

## Left out

- Discord I/O is not modelled. This covers the client, events, slash-command registration, reactions, embeds, the reply texts and the display-name lookup of `lb_lines`. Only the amount logic and the table effects are modelled.
- The scheduler and the daily summary post are left out as timer and I/O glue.
- Environment variables are left out as configuration.
- The SQLite connection and SQL text are left out. The table is a sequence of rows with explicit ids.
- `daterange_bounds_local` is left out. Windows are given as pairs of instants, because the time zone database and the wall clock are outside the model.
- Floating point is not modelled. That covers `float`, `round(..., 2)`, the `REAL` column and the `.2f` conversion. Amounts are exact cents: each match has at most two fraction digits, so the cent sum is what the rounding intends.
- `now_utc()` is a parameter (`now`) of the insert.
- Non-ASCII digits are not modelled. Python's `\d` and `float` accept them; the scanner takes ASCII digits only.
- `fmt_money` on negative numbers is left out: no negative amount reaches it.
- The `ValueError` branch of `parse_amounts` is left out. Every capture of the pattern is a valid float, so the branch cannot run.
- The row order of `GROUP BY` among equal sums is unspecified in SQLite. The model keeps the first-appearing user first.
- The "_No sales yet_" text for an empty leaderboard and the reply text of `/undo` are left out with the rest of the messaging.
- `process_commands` after `on_message` is left out, because it belongs to the command framework.

## Findings

| source | as written | input that shows it | evidently intended | confidence | as-written member | corrected member |
|---|---|---|---|---|---|---|
| sales-leaderboard-bot/bot.py:67 | rows are stamped with naive `utcnow().isoformat()`, while bounds are aware UTC `isoformat()` ending in `+00:00`, and the two are compared as text (lines 83, 88 and 97) | a sale at exactly 2024-03-10T06:00:00.000000 UTC, local midnight in America/Chicago: its text `2024-03-10T06:00:00` sorts before the bound `2024-03-10T06:00:00+00:00` | the sale counts for 2024-03-10, the day that starts at that instant | not executed | Timestamps.BoundaryRowMisfiled | Timestamps.BoundaryRowFiled |
