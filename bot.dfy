/**
 * The command handlers of the quote bot that touch state: `/quote` fetches a
 * quote and remembers it as the user's last quote, `/favorite` saves that
 * last quote in the favorites table, `/favorites` lists the user's saved
 * quotes. Each handler is a method of `Bot`, which holds the one shared
 * favorites table and the per-user session slot `last_quote`; each returns
 * the text it would send back to the user.
 */
module Handlers {
  import opened FavoritesTable
  import opened Decimal

  /** The first element of the quote service's JSON answer. */
  datatype QuoteRecord = QuoteRecord(quote: string, author: string, category: string)

  /** `requests.codes.ok`: the one status the handler treats as success. */
  const StatusOk := 200

  /** A status code that sends `/quote` down its error branch: any but 200. */
  type ErrorStatus = s: nat | s != StatusOk witness 404

  /**
   * What the HTTP GET to the quote service yields: status 200 with the first
   * record of the JSON array, or any other status with the response body.
   */
  datatype HttpOutcome = Ok(record: QuoteRecord) | Error(statusCode: ErrorStatus, text: string)

  const QuoteServiceUrl := "https://api.api-ninjas.com/v1/quotes?category="
  const DefaultCategory := "happiness"

  const NoQuoteMsg := "No quote to save. Get a quote first!"
  const SavedMsg := "Quote saved to favorites!"
  const AlreadySavedMsg := "Quote already in favorites!"
  const NoFavoritesMsg := "You haven't saved any favorites yet!"
  const ListingHeader := "Your favorite quotes:\n\n"

  /** The quote as shown to the user: the text, then a line with its author. */
  function QuoteReply(record: QuoteRecord): (r: string)
    ensures |r| == |record.quote| + 3 + |record.author|
    ensures r[..|record.quote|] == record.quote
    ensures r[|record.quote|..|record.quote| + 3] == "\n- "
    ensures r[|record.quote| + 3..] == record.author
  {
    record.quote + "\n- " + record.author
  }

  /** The reply when the quote service does not answer 200: the status, a space, the body. */
  function ErrorReply(statusCode: nat, text: string): (r: string)
    ensures |r| == 8 + |NatToString(statusCode)| + |text|
    ensures r[..7] == "Error: "
    ensures r[7..|r| - |text| - 1] == NatToString(statusCode)
    ensures r[|r| - |text| - 1] == ' ' && r[|r| - |text|..] == text
  {
    "Error: " + NatToString(statusCode) + " " + text
  }

  /** The reply to `/favorite` once the table has answered. */
  function SaveReply(inserted: bool): (r: string)
    ensures r == SavedMsg <==> inserted
    ensures r == AlreadySavedMsg <==> !inserted
  {
    if inserted then SavedMsg else AlreadySavedMsg
  }

  /**
   * One block of the `/favorites` listing: a memo sign and the quote, a line
   * with the author and the category in parentheses, and a blank line.
   */
  function Entry(f: Favorite): (r: string)
    ensures |r| == |f.quote| + |f.author| + |f.category| + 10
  {
    "\U{1F4DD} " + f.quote + "\n- " + f.author + " (" + f.category + ")\n\n"
  }

  /** Where each field of a favorite stands in its block. */
  lemma EntryFields(f: Favorite)
    ensures Entry(f)[..2] == "\U{1F4DD} " && Entry(f)[2..2 + |f.quote|] == f.quote
    ensures Entry(f)[5 + |f.quote|..5 + |f.quote| + |f.author|] == f.author
    ensures Entry(f)[|Entry(f)| - 3 - |f.category|..|Entry(f)| - 3] == f.category
    ensures Entry(f)[2 + |f.quote|..5 + |f.quote|] == "\n- "
    ensures Entry(f)[5 + |f.quote| + |f.author|..7 + |f.quote| + |f.author|] == " ("
    ensures Entry(f)[|Entry(f)| - 3..] == ")\n\n"
  {
  }

  /** The blocks of `favs` in order, as the listing loop appends them. */
  function Listing(favs: seq<Favorite>): (r: string)
    ensures r == "" <==> favs == []
  {
    if favs == [] then "" else Listing(favs[..|favs| - 1]) + Entry(favs[|favs| - 1])
  }

  /** The reply to `/favorites` for the rows the table returned. */
  function FavoritesReply(favs: seq<Favorite>): (r: string)
    ensures favs == [] ==> r == NoFavoritesMsg
    ensures favs != [] ==> |r| > |ListingHeader| && r[..|ListingHeader|] == ListingHeader && r[|ListingHeader|..] == Listing(favs)
  {
    if favs == [] then NoFavoritesMsg else ListingHeader + Listing(favs)
  }

  /** The error reply gives back both the status code and the body it was built from. */
  lemma ErrorReplyInjective(a: nat, b: nat, t: string, u: string)
    requires ErrorReply(a, t) == ErrorReply(b, u)
    ensures a == b && t == u
  {
    var na, nb := NatToString(a), NatToString(b);
    var r := ErrorReply(a, t);
    assert r[7..] == na + " " + t;
    assert r[7..] == nb + " " + u;
    LeadingDigitsOfNumeral(na, t);
    LeadingDigitsOfNumeral(nb, u);
    assert na == r[7..][..|na|] == nb;
    NatToStringInjective(a, b);
    assert t == r[8 + |na|..] == u;
  }

  /** The listing of two runs of rows is the listing of the first followed by that of the second. */
  lemma {:induction false} ListingConcat(a: seq<Favorite>, b: seq<Favorite>)
    ensures Listing(a + b) == Listing(a) + Listing(b)
  {
    if b == [] {
      assert a + b == a;
    } else {
      var b', last := b[..|b| - 1], b[|b| - 1];
      assert (a + b)[..|a + b| - 1] == a + b' && (a + b)[|a + b| - 1] == last;
      ListingConcat(a, b');
      calc {
        Listing(a + b);
        Listing(a + b') + Entry(last);
        Listing(a) + Listing(b') + Entry(last);
        Listing(a) + Listing(b);
      }
    }
  }

  /** The listing starts with the block of the first row returned, then lists the rest. */
  lemma ListingFirst(favs: seq<Favorite>)
    requires favs != []
    ensures Listing(favs) == Entry(favs[0]) + Listing(favs[1..])
  {
    assert favs == [favs[0]] + favs[1..];
    ListingConcat([favs[0]], favs[1..]);
    assert [favs[0]][..0] == [];
  }

  /** The "no favorites" message is sent exactly when the table returned nothing. */
  lemma FavoritesReplyEmpty(favs: seq<Favorite>)
    ensures FavoritesReply(favs) == NoFavoritesMsg <==> favs == []
  {
    if favs != [] {
      assert FavoritesReply(favs)[3] == 'r' != NoFavoritesMsg[3];
    }
  }

  /**
   * After a quote new to the user is saved, `/favorites` answers with the
   * listing of the user's rows, which are the earlier ones and the new one,
   * in whatever order the table returns them.
   */
  lemma ListingAfterSave(rows: seq<Row>, row: Row)
    requires !HasKey(rows, row.userId, row.quote)
    ensures var after := Select(Insert(rows, row).rows, row.userId);
      && FavoritesReply(after) == ListingHeader + Listing(after)
      && multiset(after) == multiset(Select(rows, row.userId)) + multiset{Project(row)}
  {
    var after := Select(Insert(rows, row).rows, row.userId);
    AddThenSelect(rows, row);
    assert Project(row) in multiset(after);
  }

  class Bot {
    /** The favorites table every handler opens. */
    const db: QuoteDB
    /** `context.user_data['last_quote']` of each user who has one. */
    var lastQuote: map<UserId, QuoteRecord>

    ghost predicate Valid()
      reads this, db
    {
      db.Valid()
    }

    constructor (db: QuoteDB)
      requires db.Valid()
      ensures Valid()
      ensures this.db == db && lastQuote == map[]
    {
      this.db := db;
      lastQuote := map[];
    }

    /**
     * `/quote [category]`: asks the quote service for a quote of the first
     * argument's category (happiness when there is none). On success the
     * record becomes the user's last quote and is shown; otherwise the
     * status and body are shown and the last quote is kept.
     */
    method GetQuote(userId: UserId, args: seq<string>, fetch: string -> HttpOutcome)
      returns (url: string, reply: string)
      requires Valid()
      modifies this
      ensures Valid() && db.rows == old(db.rows)
      ensures url == QuoteServiceUrl + (if args != [] then args[0] else DefaultCategory)
      ensures fetch(url).Ok? ==> lastQuote == old(lastQuote)[userId := fetch(url).record]
      ensures fetch(url).Ok? ==> reply == fetch(url).record.quote + "\n- " + fetch(url).record.author
      ensures fetch(url).Error? ==> lastQuote == old(lastQuote)
      ensures fetch(url).Error? ==> reply == ErrorReply(fetch(url).statusCode, fetch(url).text)
    {
      var category := if args != [] then args[0] else DefaultCategory;
      url := QuoteServiceUrl + category;
      var response := fetch(url);
      if response.Ok? {
        lastQuote := lastQuote[userId := response.record];
        reply := QuoteReply(response.record);
      } else {
        reply := ErrorReply(response.statusCode, response.text);
      }
    }

    /**
     * `/favorite`: without a last quote, refuses and touches nothing;
     * otherwise inserts it for the user and says whether it was new. The
     * last quote is read, never cleared.
     */
    method AddFavorite(userId: UserId, now: Timestamp) returns (reply: string)
      requires Valid()
      modifies db
      ensures Valid() && lastQuote == old(lastQuote)
      ensures userId !in lastQuote ==> reply == NoQuoteMsg && db.rows == old(db.rows)
      ensures userId in lastQuote ==>
        var q := lastQuote[userId];
        db.rows == Insert(old(db.rows), Row(userId, q.quote, q.author, q.category, now)).rows
      ensures reply == SavedMsg <==> userId in lastQuote && !HasKey(old(db.rows), userId, lastQuote[userId].quote)
      ensures reply == AlreadySavedMsg <==> userId in lastQuote && HasKey(old(db.rows), userId, lastQuote[userId].quote)
    {
      if userId !in lastQuote {
        reply := NoQuoteMsg;
        return;
      }
      var q := lastQuote[userId];
      var inserted := db.AddFavorite(userId, q.quote, q.author, q.category, now);
      reply := SaveReply(inserted);
    }

    /**
     * `/favorites`: the "no favorites" message when the user has saved
     * nothing, otherwise the header followed by one block per row, in the
     * order the table returned them.
     */
    method GetFavorites(userId: UserId) returns (reply: string)
      requires Valid()
      ensures reply == FavoritesReply(db.GetFavorites(userId))
    {
      var favorites := db.GetFavorites(userId);
      if favorites == [] {
        reply := NoFavoritesMsg;
        return;
      }
      reply := ListingHeader;
      for i := 0 to |favorites|
        invariant reply == ListingHeader + Listing(favorites[..i])
      {
        assert favorites[..i + 1][..i] == favorites[..i];
        reply := reply + Entry(favorites[i]);
      }
      assert favorites[..|favorites|] == favorites;
    }
  }
}
