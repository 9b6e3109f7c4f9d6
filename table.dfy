/**
 * The `favorites` table of the quote bot's database, as an abstract keyed
 * table: a sequence of rows in storage order whose key is the pair
 * (user id, quote text). The SQL engine is not modelled; what is kept is
 * what the table promises: an INSERT either adds one row or, when the key is
 * already present, fails with an integrity error and changes nothing, and a
 * SELECT filters the rows of one user.
 */
module FavoritesTable {
  import opened Wrappers

  type UserId = int

  /** The value `datetime.now()` gives at insertion; it is only ever stored. */
  type Timestamp = int

  /** One row: columns user_id, quote, author, category, added_date. */
  datatype Row = Row(userId: UserId, quote: string, author: string, category: string, addedDate: Timestamp)

  /** What `get_favorites` returns for one row: (quote, author, category). */
  datatype Favorite = Favorite(quote: string, author: string, category: string)

  function Project(row: Row): Favorite {
    Favorite(row.quote, row.author, row.category)
  }

  predicate HasKeyOf(row: Row, userId: UserId, quote: string) {
    row.userId == userId && row.quote == quote
  }

  /** Some stored row has the primary key (userId, quote). */
  ghost predicate HasKey(rows: seq<Row>, userId: UserId, quote: string) {
    exists i :: 0 <= i < |rows| && HasKeyOf(rows[i], userId, quote)
  }

  /** The PRIMARY KEY (user_id, quote) constraint: no two rows share a key. */
  ghost predicate KeysUnique(rows: seq<Row>) {
    forall i, j :: 0 <= i < j < |rows| ==> !HasKeyOf(rows[j], rows[i].userId, rows[i].quote)
  }

  /** The primary-key probe: the position of the row with key (userId, quote), if any. */
  function Find(rows: seq<Row>, userId: UserId, quote: string): (r: Option<nat>)
    ensures r.Some? ==> r.value < |rows| && HasKeyOf(rows[r.value], userId, quote)
    ensures r.None? <==> !HasKey(rows, userId, quote)
  {
    if rows == [] then None
    else if HasKeyOf(rows[0], userId, quote) then Some(0)
    else
      var rest := Find(rows[1..], userId, quote);
      assert forall i :: 1 <= i < |rows| ==> rows[i] == rows[1..][i - 1];
      if rest.None? then None else Some(rest.value + 1)
  }

  /** What an INSERT reports and the rows it leaves behind. */
  datatype InsertResult = InsertResult(inserted: bool, rows: seq<Row>)

  /**
   * `INSERT INTO favorites VALUES (...)`: succeeds exactly when the key is
   * new, and then appends the row; on a key violation the rows are left as
   * they were, so an existing row is never overwritten.
   */
  function Insert(rows: seq<Row>, row: Row): (r: InsertResult)
    ensures r.inserted <==> !HasKey(rows, row.userId, row.quote)
    ensures r.inserted ==> r.rows == rows + [row]
    ensures !r.inserted ==> r.rows == rows
    ensures KeysUnique(rows) ==> KeysUnique(r.rows)
  {
    if Find(rows, row.userId, row.quote).Some? then InsertResult(false, rows)
    else InsertResult(true, rows + [row])
  }

  /** `SELECT quote, author, category FROM favorites WHERE user_id = ?`, in storage order. */
  function Select(rows: seq<Row>, userId: UserId): (r: seq<Favorite>)
    ensures |r| <= |rows|
    ensures forall f :: f in r <==> exists i :: 0 <= i < |rows| && rows[i].userId == userId && Project(rows[i]) == f
  {
    if rows == [] then []
    else
      var rest := Select(rows[1..], userId);
      assert forall i :: 1 <= i < |rows| ==> rows[i] == rows[1..][i - 1];
      if rows[0].userId == userId then [Project(rows[0])] + rest else rest
  }

  /** Applies a series of INSERTs in order, ignoring the rejected ones. */
  function InsertAll(rows: seq<Row>, adds: seq<Row>): (r: seq<Row>)
    ensures KeysUnique(rows) ==> KeysUnique(r)
    ensures |rows| <= |r| <= |rows| + |adds|
    ensures r[..|rows|] == rows
    decreases |adds|
  {
    if adds == [] then rows
    else InsertAll(Insert(rows, adds[0]).rows, adds[1..])
  }

  /**
   * Appending a row extends a user's selection by that row exactly when it
   * is theirs; the position is that of the model's storage order.
   */
  lemma {:induction false} SelectAppend(rows: seq<Row>, row: Row, userId: UserId)
    ensures Select(rows + [row], userId)
         == Select(rows, userId) + (if row.userId == userId then [Project(row)] else [])
  {
    if rows != [] {
      assert (rows + [row])[1..] == rows[1..] + [row];
      SelectAppend(rows[1..], row, userId);
    }
  }

  /**
   * Adding a new key for a user adds exactly its (quote, author, category)
   * to what that user's SELECT returns, whatever order the rows come in.
   */
  lemma AddThenSelect(rows: seq<Row>, row: Row)
    requires !HasKey(rows, row.userId, row.quote)
    ensures Insert(rows, row).inserted
    ensures multiset(Select(Insert(rows, row).rows, row.userId))
         == multiset(Select(rows, row.userId)) + multiset{Project(row)}
  {
    SelectAppend(rows, row, row.userId);
  }

  /** An INSERT for one user never changes what another user's SELECT returns. */
  lemma InsertIsolation(rows: seq<Row>, row: Row, other: UserId)
    requires other != row.userId
    ensures Select(Insert(rows, row).rows, other) == Select(rows, other)
  {
    SelectAppend(rows, row, other);
  }

  /** Inserting the same key twice in a row: the first succeeds on a new key, the second never does. */
  lemma InsertTwice(rows: seq<Row>, first: Row, second: Row)
    requires !HasKey(rows, first.userId, first.quote)
    requires second.userId == first.userId && second.quote == first.quote
    ensures Insert(rows, first).inserted
    ensures !Insert(Insert(rows, first).rows, second).inserted
    ensures Insert(Insert(rows, first).rows, second).rows == rows + [first]
  {
    var after := Insert(rows, first).rows;
    assert HasKeyOf(after[|rows|], second.userId, second.quote);
  }

  /** With unique keys, a user's selection never lists the same quote twice. */
  lemma {:induction false} SelectQuotesDistinct(rows: seq<Row>, userId: UserId)
    requires KeysUnique(rows)
    ensures forall j, k :: 0 <= j < k < |Select(rows, userId)| ==> Select(rows, userId)[j].quote != Select(rows, userId)[k].quote
  {
    if rows != [] {
      var rest := Select(rows[1..], userId);
      assert KeysUnique(rows[1..]) by {
        forall i, j | 0 <= i < j < |rows[1..]|
          ensures !HasKeyOf(rows[1..][j], rows[1..][i].userId, rows[1..][i].quote)
        {
          assert rows[1..][i] == rows[i + 1] && rows[1..][j] == rows[j + 1];
        }
      }
      SelectQuotesDistinct(rows[1..], userId);
      if rows[0].userId == userId {
        forall k | 0 <= k < |rest| ensures rest[k].quote != rows[0].quote {
          assert rest[k] in rest;
          var i :| 0 <= i < |rows[1..]| && rows[1..][i].userId == userId && Project(rows[1..][i]) == rest[k];
          assert rows[1..][i] == rows[i + 1];
        }
      }
    }
  }

  /** The bot's connection to the favorites table. */
  class QuoteDB {
    var rows: seq<Row>

    ghost predicate Valid()
      reads this
    {
      KeysUnique(rows)
    }

    /** Creating the favorites table on a database that has none: no rows yet. */
    constructor ()
      ensures Valid() && rows == []
    {
      rows := [];
    }

    /**
     * Inserts (userId, quote, author, category, now); answers true when the
     * row was added and false when the key was already taken, in which case
     * the stored row (author, category, date) stays as it was.
     */
    method AddFavorite(userId: UserId, quote: string, author: string, category: string, now: Timestamp)
      returns (ok: bool)
      requires Valid()
      modifies this
      ensures Valid()
      ensures ok <==> !HasKey(old(rows), userId, quote)
      ensures ok ==> rows == old(rows) + [Row(userId, quote, author, category, now)]
      ensures !ok ==> rows == old(rows)
    {
      var result := Insert(rows, Row(userId, quote, author, category, now));
      rows := result.rows;
      ok := result.inserted;
    }

    /** The (quote, author, category) of every row of `userId`, each once, none of another user. */
    function GetFavorites(userId: UserId): (r: seq<Favorite>)
      requires Valid()
      reads this
      ensures forall f :: f in r <==> exists i :: 0 <= i < |rows| && rows[i].userId == userId && Project(rows[i]) == f
      ensures forall j, k :: 0 <= j < k < |r| ==> r[j].quote != r[k].quote
    {
      SelectQuotesDistinct(rows, userId);
      Select(rows, userId)
    }
  }
}
