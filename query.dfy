/**
 * The two read queries of index.js over the `messages` table: the search of
 * index.js:68-85 and the listing of index.js:94-96.  The table is a sequence of rows.
 */
module Query {
  import opened Text
  import opened Normaliser
  import opened Like

  /** A row of `messages`: the id the table assigns and the inserted values. */
  datatype Record = Record(id: nat, entry: Entry)

  predicate DistinctIds(rows: seq<Record>) {
    forall i, j :: 0 <= i < j < |rows| ==> rows[i].id != rows[j].id
  }

  predicate SortedById(rows: seq<Record>) {
    forall i, j :: 0 <= i < j < |rows| ==> rows[i].id <= rows[j].id
  }

  /**
   * The WHERE clause of index.js:79-82 for the pattern `%t%`: the id as text, the
   * date as text, the sender or the message matches.
   */
  predicate Hit(row: Record, t: string) {
    var p := "%" + t + "%";
    || ILike(Decimal(row.id), p)
    || ILike(row.entry.date, p)
    || ILike(row.entry.sender, p)
    || ILike(row.entry.message, p)
  }

  /** The rows the WHERE clause keeps, each once, in table order. */
  function Filter(rows: seq<Record>, t: string): (r: seq<Record>)
    ensures forall x :: x in r <==> x in rows && Hit(x, t)
    ensures |r| <= |rows|
    ensures DistinctIds(rows) ==> DistinctIds(r)
  {
    if rows == [] then []
    else
      var rest := Filter(rows[1..], t);
      assert DistinctIds(rows) ==> DistinctIds(rows[1..]);
      assert DistinctIds(rows) ==> forall x :: x in rest ==> x.id != rows[0].id;
      if Hit(rows[0], t) then [rows[0]] + rest else rest
  }

  /**
   * `/search?q=…`: a blank query (after trimming) gives no rows without consulting the
   * table; otherwise exactly the rows the trimmed query hits, none twice.
   */
  function Search(rows: seq<Record>, q: string): (r: seq<Record>)
    ensures Blank(q) ==> r == []
    ensures !Blank(q) ==> forall x :: x in r <==> x in rows && Hit(x, Trim(q))
    ensures DistinctIds(rows) ==> DistinctIds(r)
  {
    var t := Trim(q);
    TrimBlank(q);
    if t == [] then [] else Filter(rows, t)
  }

  /**
   * For a query without `%`, `_` or `\`, a row is found exactly when the trimmed
   * query occurs, ignoring case, in its id, date, sender or message.
   */
  lemma SearchPlainQuery(rows: seq<Record>, q: string, x: Record)
    requires !Blank(q) && Plain(Trim(q))
    ensures x in Search(rows, q) <==>
      x in rows &&
      (|| ContainsIgnoringCase(Decimal(x.id), Trim(q))
       || ContainsIgnoringCase(x.entry.date, Trim(q))
       || ContainsIgnoringCase(x.entry.sender, Trim(q))
       || ContainsIgnoringCase(x.entry.message, Trim(q)))
  {
    var t := Trim(q);
    PlainSubstring(Decimal(x.id), t);
    PlainSubstring(x.entry.date, t);
    PlainSubstring(x.entry.sender, t);
    PlainSubstring(x.entry.message, t);
  }

  // ---------------------------------------------------------------- ORDER BY id

  /** `x` put into the id-sorted `rows` before the first row with a larger id. */
  function InsertById(x: Record, rows: seq<Record>): (r: seq<Record>)
    ensures multiset(r) == multiset(rows) + multiset{x}
    ensures forall y :: y in r ==> y == x || y in rows
    ensures SortedById(rows) ==> SortedById(r)
  {
    if rows == [] || x.id <= rows[0].id then [x] + rows
    else
      var rest := InsertById(x, rows[1..]);
      assert rows == [rows[0]] + rows[1..];
      if SortedById(rows) then
        assert forall y :: y in rows[1..] ==> rows[0].id <= y.id;
        ConsSorted(rows[0], rest);
        [rows[0]] + rest
      else
        [rows[0]] + rest
  }

  /** A row no larger than every row of a sorted list can go in front of it. */
  lemma ConsSorted(h: Record, rest: seq<Record>)
    requires SortedById(rest)
    requires forall y :: y in rest ==> h.id <= y.id
    ensures SortedById([h] + rest)
  {
  }

  /** `ORDER BY id ASC`: the same rows, sorted by id. */
  function SortById(rows: seq<Record>): (r: seq<Record>)
    ensures multiset(r) == multiset(rows)
    ensures SortedById(r)
  {
    if rows == [] then []
    else
      assert rows == [rows[0]] + rows[1..];
      InsertById(rows[0], SortById(rows[1..]))
  }

  /** Rows already in id order are listed as they are. */
  lemma {:induction false} SortSortedIsIdentity(rows: seq<Record>)
    ensures SortedById(rows) ==> SortById(rows) == rows
  {
    if rows != [] && SortedById(rows) {
      SortSortedIsIdentity(rows[1..]);
      assert rows == [rows[0]] + rows[1..];
    }
  }

  /** `/all`: every row, ascending by id. */
  function ListAll(rows: seq<Record>): (r: seq<Record>)
    ensures multiset(r) == multiset(rows)
    ensures SortedById(r)
    ensures SortedById(rows) ==> r == rows
  {
    SortSortedIsIdentity(rows);
    SortById(rows)
  }
}
