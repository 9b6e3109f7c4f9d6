# Quote bot favorites, modelled in Dafny

This project models the stateful core of a Telegram quote bot. Three command handlers matter:

- `/quote [category]` fetches a quote from the api-ninjas quote service. It shows the quote and remembers it as the user's `last_quote`.
- `/favorite` saves that last quote in a SQLite `favorites` table whose primary key is `(user_id, quote)`.
- `/favorites` lists the quotes a user has saved.

Modules:

- `FavoritesTable` (`table.dfy`) models the `favorites` table as a sequence of rows in storage order.
  - The primary key constraint is the invariant `KeysUnique`.
  - `Insert` models `INSERT` with its integrity error: it appends a row with a new key, and rejects a taken key without changing anything.
  - `Select` models the `SELECT ... WHERE user_id = ?` filter.
  - The class `QuoteDB` holds the rows and updates them in place.
- `Handlers` (`bot.dfy`) holds the class `Bot`.
  - `Bot` holds one shared `QuoteDB` and the per-user session slot `lastQuote`, a map from user id to the last fetched record.
  - The three handlers are methods of `Bot`. Each returns the text the bot would send.
  - The quote service is a parameter `fetch` from request URL to outcome. The outcome is `Ok(record)` for status 200 or `Error(status, text)` for any other status. The type `ErrorStatus` excludes 200 from the error case.
  - The insertion time is a parameter `now`.
- `Decimal` (`decimal.dfy`) renders a status code in decimal for the error reply. It also has the parser that reads the code back.
- `Scenarios` (`scenarios.dfy`) runs whole conversations against a fresh table and fresh sessions.
- `Wrappers` (`wrappers.dfy`) holds `Option`.

## Model

| member | source | states |
|---|---|---|
| `FavoritesTable.Find` | bin/bot.py:39 | The primary-key probe finds a position holding key (user, quote), and finds none exactly when no row has that key. |
| `FavoritesTable.Insert` | bin/bot.py:43-52 | The insert reports success exactly when the key is new. On success it appends the row with its author, category and date. On a duplicate the rows are unchanged, so the stored row is not overwritten. Unique keys stay unique. |
| `FavoritesTable.Select` | bin/bot.py:54-59 | A (quote, author, category) is returned for a user exactly when some row of that user projects to it. It is never longer than the table. |
| `FavoritesTable.InsertAll` | bin/bot.py:39-52 | After any series of inserts, keys stay unique. Existing rows stay in place as a prefix. At most one row is added per insert. |
| `FavoritesTable.SelectAppend` | bin/bot.py:54-59 | In the model's storage order, appending a row extends a user's result by that row's triple exactly when the row is that user's. Otherwise the result is unchanged. |
| `FavoritesTable.AddThenSelect` | bin/bot.py:43-59 | Adding a new key succeeds. The user's list afterwards holds, as a multiset, the old list's triples plus the new (quote, author, category), and nothing else. No order is claimed. |
| `FavoritesTable.InsertIsolation` | bin/bot.py:43-59 | An insert for user B leaves user A's list unchanged. |
| `FavoritesTable.InsertTwice` | bin/bot.py:39-52 | Inserting the same (user, quote) twice in a row returns true, then false. The second insert leaves the table with exactly the first row added. |
| `FavoritesTable.SelectQuotesDistinct` | bin/bot.py:39-59 | With the primary key holding, a user's list never holds the same quote twice. |
| `FavoritesTable.QuoteDB.constructor` | bin/bot.py:27-41 | Creating the favorites table on a database that has none gives a valid, empty table. Rows stored earlier are covered because `Bot`'s constructor accepts any valid table. |
| `FavoritesTable.QuoteDB.AddFavorite` | bin/bot.py:43-52 | Returns true exactly when the key was absent. The row is then appended. Otherwise the table is unchanged. The key invariant is kept. |
| `FavoritesTable.QuoteDB.GetFavorites` | bin/bot.py:54-59 | Returns exactly the triples of the user's rows and none of another user's. No quote appears twice. |
| `Handlers.QuoteReply` | bin/bot.py:92 | The shown quote is the quote text, then newline, dash and space, then the author, and nothing else. |
| `Handlers.ErrorReply` | bin/bot.py:95 | The error reply is "Error: ", then the status code's numeral, then a space, then the response body. |
| `Handlers.SaveReply` | bin/bot.py:114-117 | The reply is "Quote saved to favorites!" exactly when the insert succeeded, and "Quote already in favorites!" exactly when it did not. |
| `Handlers.Entry` | bin/bot.py:130 | A listing block is 10 characters longer than its quote, author and category together. |
| `Handlers.EntryFields` | bin/bot.py:130 | A listing block starts with the memo sign and a space, then the quote. The author follows a newline, dash and space. The author is followed by space and "(", then the category, then the closing ")\n\n". |
| `Handlers.Listing` | bin/bot.py:128-130 | The text the loop appends is empty exactly when there are no rows. |
| `Handlers.FavoritesReply` | bin/bot.py:124-132 | With no rows the reply is the empty-list message. Otherwise it is the header "Your favorite quotes:" with two newlines, followed by the listing. |
| `Handlers.ListingConcat` | bin/bot.py:128-130 | The listing loop's output for two runs of rows is the output for the first run followed by the output for the second. |
| `Handlers.ListingFirst` | bin/bot.py:128-130 | The listing begins with the block of the first row returned, followed by the listing of the rest. |
| `Handlers.FavoritesReplyEmpty` | bin/bot.py:124-132 | The "You haven't saved any favorites yet!" reply is sent exactly when the user's list is empty. |
| `Handlers.ListingAfterSave` | bin/bot.py:114-132 | After a new quote is saved, `/favorites` answers with the header and a listing. The listed rows are, as a multiset, the earlier ones plus the new quote, in whatever order the table returns them. |
| `Handlers.Bot.constructor` | bin/bot.py:112-136 | A bot starts with the given valid table and no user holding a last quote. Every handler shares that one table, though each reopens it (lines 112 and 121). At application start (line 136) no user's session holds `last_quote`. |
| `Handlers.Bot.GetQuote` | bin/bot.py:85-95 | The request uses the first argument as category, or happiness when there is none. On success the record becomes the user's last quote and the reply is quote, newline, "- ", author. On an error the reply is "Error: status text" and the last quote is unchanged. The table is untouched. |
| `Handlers.Bot.AddFavorite` | bin/bot.py:104-117 | Without a last quote the reply is the "No quote to save" message and the table is unchanged. Otherwise the last quote is inserted. The reply is "Quote saved to favorites!" exactly when the key was new, and "Quote already in favorites!" exactly when it was taken. The last quote is not cleared. |
| `Handlers.Bot.GetFavorites` | bin/bot.py:119-132 | The reply built by the loop is the empty-list message, or the header followed by one block per returned row in order. |
| `Decimal.NatToString` | bin/bot.py:95 | The status code is written as a non-empty run of digits with no leading zero. The numeral is "0" only for zero. |
| `Decimal.ParseNatToString` | bin/bot.py:95 | Reading back the digits written for a status code gives that code. |
| `Decimal.NatToStringInjective` | bin/bot.py:95 | Different status codes are written as different numerals. |
| `Handlers.ErrorReplyInjective` | bin/bot.py:95 | Two error replies are equal only when both the status codes and the bodies are equal. So the reply determines both. |
| `Scenarios.SaveFlow` | bin/bot.py:85-132 | `/quote`, `/favorite`, `/favorite`, `/favorites` on a fresh bot: the quote is shown, then saved, then refused as a duplicate, then listed once with its author and category. |
| `Scenarios.FavoriteWithoutQuote` | bin/bot.py:104-132 | `/favorite` with no prior `/quote` is refused and stores nothing, so `/favorites` reports an empty list. |
| `Scenarios.FailureKeepsLastQuote` | bin/bot.py:85-117 | A failed `/quote` keeps the earlier quote, and so does another user's `/quote`. `/favorite` then saves that earlier quote. |

## Left out

- SQLite itself is not modelled: the connection, the `../data/quotes.db` path, `CREATE TABLE` and `commit`. Only the table's keyed semantics are kept. Every handler's `QuoteDB()` is treated as one shared table.
- Storage errors other than the key violation (disk errors, locking) are not modelled. The code does not catch them.
- Row order: SQL promises no order for a `SELECT` without `ORDER BY`. SQLite is likely to answer through the `(user_id, quote)` key index, which sorts by quote text. The model's `Select` lists rows in storage order, as one fixed order. Properties that relate the lists before and after a save (`AddThenSelect`, `ListingAfterSave`) are stated as multisets, so they do not depend on that choice. `SelectAppend` is about the model's storage order only. `InsertIsolation` is stated as equality of sequences in storage order. It would also hold under the key-index order, because the other user's rows do not change.
- The HTTP request and JSON decoding are not modelled; the outcome is an input. Only well-formed records, with quote, author and category, reach `lastQuote` in the model. The code's paths for a malformed 200 answer are not modelled:
  - If the JSON array is empty, `/quote` raises at bin/bot.py:90 before writing `last_quote`, so nothing is sent and `last_quote` keeps its value.
  - If the record lacks `quote` or `author`, it is stored as `last_quote` (bin/bot.py:91), and then `/quote` raises at bin/bot.py:92 without a reply.
  - If the record lacks only `category`, `/quote` stores it and shows it normally, because bin/bot.py:92 reads only `quote` and `author`.
  - A stored record that lacks a field makes a later `/favorite` raise a KeyError at bin/bot.py:114, before any insert. The exception is a stored `{}`: it is falsy, so `/favorite` replies "No quote to save. Get a quote first!".
- A well-formed record is truthy, so the model's "absent or falsy" test is only "absent".
- A transport failure is not modelled. When `requests.get` raises (connection error, timeout), `/quote` raises, sends nothing and leaves `last_quote` unchanged. `HttpOutcome` has no case for it.
- The category is appended to the URL without encoding, as the code does. The URL is returned, not sent.
- The `start`, `help` and `categories` handlers are not modelled. They send fixed text, or the contents of `categories.txt` (file I/O).
- Telegram delivery is not modelled: `reply_text`, `reply_html`, the `Application` wiring and async handling. Replies are returned strings.
- Environment and token loading, and logging, are not modelled.
- Concurrency between handlers is not modelled. Each handler runs to completion before the next.
- Handlers.Bot.GetQuote: takes the status code as a non-negative number. HTTP status codes are never negative.
