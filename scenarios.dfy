/**
 * Conversations with the bot, run against a fresh database and fresh
 * sessions, showing what the handlers' contracts let a caller conclude
 * about a whole exchange.
 */
module Scenarios {
  import opened FavoritesTable
  import opened Handlers

  /**
   * `/quote`, `/favorite`, `/favorite` again, `/favorites`: the quote is
   * shown, saved once, refused the second time, and listed with its author
   * and category.
   */
  method SaveFlow(userId: UserId, record: QuoteRecord, first: Timestamp, second: Timestamp)
    returns (shown: string, saved: string, again: string, listed: string)
    ensures shown == record.quote + "\n- " + record.author
    ensures saved == SavedMsg
    ensures again == AlreadySavedMsg
    ensures listed == ListingHeader + Entry(Favorite(record.quote, record.author, record.category))
  {
    var db := new QuoteDB();
    var bot := new Bot(db);
    var url;
    url, shown := bot.GetQuote(userId, [], _ => Ok(record));
    assert bot.lastQuote[userId] == record;
    var row := Row(userId, record.quote, record.author, record.category, first);
    saved := bot.AddFavorite(userId, first);
    assert db.rows == [row];
    again := bot.AddFavorite(userId, second);
    assert db.rows == [row];
    listed := bot.GetFavorites(userId);
    var favs := [Project(row)];
    assert Select([row], userId) == favs;
    assert favs[..0] == [];
    assert Listing(favs) == Entry(favs[0]);
  }

  /** `/favorite` before any `/quote` is refused and saves nothing. */
  method FavoriteWithoutQuote(userId: UserId, now: Timestamp) returns (refused: string, listed: string)
    ensures refused == NoQuoteMsg
    ensures listed == NoFavoritesMsg
  {
    var db := new QuoteDB();
    var bot := new Bot(db);
    refused := bot.AddFavorite(userId, now);
    listed := bot.GetFavorites(userId);
  }

  /**
   * A failed `/quote` after a successful one keeps the earlier quote, which
   * `/favorite` then saves; another user's `/quote` does not disturb it.
   */
  method FailureKeepsLastQuote(userId: UserId, other: UserId, record: QuoteRecord, theirs: QuoteRecord,
                               statusCode: ErrorStatus, text: string, now: Timestamp)
    returns (failed: string, saved: string, stored: seq<Favorite>)
    requires other != userId
    ensures failed == "Error: " + Decimal.NatToString(statusCode) + " " + text
    ensures saved == SavedMsg
    ensures stored == [Favorite(record.quote, record.author, record.category)]
  {
    var db := new QuoteDB();
    var bot := new Bot(db);
    var url, shown := bot.GetQuote(userId, ["wisdom"], _ => Ok(record));
    url, failed := bot.GetQuote(userId, [], _ => Error(statusCode, text));
    url, shown := bot.GetQuote(other, [], _ => Ok(theirs));
    saved := bot.AddFavorite(userId, now);
    stored := db.GetFavorites(userId);
    assert db.rows == [Row(userId, record.quote, record.author, record.category, now)];
    assert stored == Select(db.rows, userId);
  }
}
