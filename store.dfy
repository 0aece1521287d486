/**
 * The `messages` table and the upload handler of index.js:29-66 that replaces its
 * contents: one DELETE, then one INSERT per matching line, in file order, with no
 * transaction around them.
 */
module Store {
  import opened Wrappers
  import opened Text
  import opened LineGrammar
  import opened Normaliser
  import opened Query

  /** The values `f` gives for the elements of `xs` where it gives one, in order. */
  function FilterMap<A, B>(xs: seq<A>, f: A -> Option<B>): (r: seq<B>)
    ensures |r| <= |xs|
  {
    if xs == [] then []
    else
      var init := FilterMap(xs[..|xs| - 1], f);
      match f(xs[|xs| - 1])
      case Some(y) => init + [y]
      case None => init
  }

  lemma {:induction false} FilterMapAppend<A, B>(a: seq<A>, b: seq<A>, f: A -> Option<B>)
    ensures FilterMap(a + b, f) == FilterMap(a, f) + FilterMap(b, f)
  {
    if b == [] {
      assert a + b == a;
    } else {
      var b' := b[..|b| - 1];
      FilterMapAppend(a, b', f);
      assert (a + b)[..|a + b| - 1] == a + b';
      assert (a + b)[|a + b| - 1] == b[|b| - 1];
    }
  }

  lemma FilterMapPrefix<A, B>(xs: seq<A>, i: nat, f: A -> Option<B>)
    requires i <= |xs|
    ensures FilterMap(xs[..i], f) <= FilterMap(xs, f)
  {
    assert xs == xs[..i] + xs[i..];
    FilterMapAppend(xs[..i], xs[i..], f);
  }

  lemma {:induction false} FilterMapFrom<A, B>(xs: seq<A>, f: A -> Option<B>, k: nat)
    requires k < |FilterMap(xs, f)|
    ensures exists i :: 0 <= i < |xs| && f(xs[i]) == Some(FilterMap(xs, f)[k])
  {
    var init := xs[..|xs| - 1];
    if k < |FilterMap(init, f)| {
      FilterMapFrom(init, f, k);
      var i :| 0 <= i < |init| && f(init[i]) == Some(FilterMap(init, f)[k]);
      assert xs[i] == init[i];
    } else {
      assert f(xs[|xs| - 1]) == Some(FilterMap(xs, f)[k]);
    }
  }

  lemma {:induction false} FilterMapKeeps<A, B>(xs: seq<A>, f: A -> Option<B>, i: nat)
    requires i < |xs| && f(xs[i]).Some?
    ensures f(xs[i]).value in FilterMap(xs, f)
  {
    var init := xs[..|xs| - 1];
    if i < |xs| - 1 {
      FilterMapKeeps(init, f, i);
      assert init[i] == xs[i];
    }
  }

  lemma {:induction false} FilterMapNone<A, B>(xs: seq<A>, f: A -> Option<B>)
    requires forall i :: 0 <= i < |xs| ==> f(xs[i]).None?
    ensures FilterMap(xs, f) == []
  {
    if xs != [] {
      FilterMapNone(xs[..|xs| - 1], f);
    }
  }

  /** What the upload loop inserts for `lines`: one entry per matching line, in order. */
  function Ingested(lines: seq<string>): seq<Entry> {
    FilterMap(lines, Ingest)
  }

  /** Ingesting two pieces of a file one after the other is ingesting the file. */
  lemma IngestedAppend(a: seq<string>, b: seq<string>)
    ensures Ingested(a + b) == Ingested(a) + Ingested(b)
  {
    FilterMapAppend(a, b, Ingest);
  }

  /** Every ingested entry is the normalised form of some matching line of the file. */
  lemma IngestedFromLines(lines: seq<string>, k: nat)
    requires k < |Ingested(lines)|
    ensures exists i :: 0 <= i < |lines| && Ingest(lines[i]) == Some(Ingested(lines)[k])
  {
    FilterMapFrom(lines, Ingest, k);
  }

  /** Every matching line of the file contributes its entry. */
  lemma MatchingLineIngested(lines: seq<string>, i: nat)
    requires i < |lines| && Parse(lines[i]).Some?
    ensures Ingest(lines[i]).Some? && Ingest(lines[i]).value in Ingested(lines)
  {
    FilterMapKeeps(lines, Ingest, i);
  }

  /**
   * A piece of CRLF text split at `\n`: it keeps its trailing carriage return, or it
   * is the empty piece after a final line break.
   */
  predicate CrlfPiece(line: string) {
    line == [] || line[|line| - 1] == '\r'
  }

  /** A CRLF piece never matches: the empty line has no date, the other ends in `\r`. */
  lemma CrlfPieceDoesNotMatch(line: string)
    requires CrlfPiece(line)
    ensures Ingest(line) == None
  {
    if line == [] {
      ParseSound(line);
    } else {
      CarriageReturnLineDoesNotMatch(line);
    }
  }

  /** Lines that are all CRLF pieces (a CRLF file that ends in a line break) yield no entry. */
  lemma CarriageReturnLinesIngestNothing(lines: seq<string>)
    requires forall i :: 0 <= i < |lines| ==> CrlfPiece(lines[i])
    ensures Ingested(lines) == []
  {
    forall i | 0 <= i < |lines| ensures Ingest(lines[i]).None? {
      CrlfPieceDoesNotMatch(lines[i]);
    }
    FilterMapNone(lines, Ingest);
  }

  /**
   * A CRLF file whose last line has no line break: only that unterminated last line,
   * which has no carriage return, can be stored.
   */
  lemma CrlfFileIngestsOnlyLastLine(lines: seq<string>)
    requires |lines| >= 1
    requires forall i :: 0 <= i < |lines| - 1 ==> CrlfPiece(lines[i])
    ensures Ingested(lines) == Ingested([lines[|lines| - 1]])
  {
    var n := |lines| - 1;
    assert lines == lines[..n] + [lines[n]];
    IngestedAppend(lines[..n], [lines[n]]);
    CarriageReturnLinesIngestNothing(lines[..n]);
  }

  /** The inserted values of the rows, in table order. */
  function EntriesOf(rows: seq<Record>): (r: seq<Entry>)
    ensures |r| == |rows|
    ensures forall i :: 0 <= i < |rows| ==> r[i] == rows[i].entry
  {
    seq(|rows|, i requires 0 <= i < |rows| => rows[i].entry)
  }

  /** A failure of the database, injected: the DELETE, or the `k`-th INSERT (from 0), fails. */
  datatype Fault = NoFault | DeleteFails | InsertFails(k: nat)

  /** The response: the redirect to `/`, or the error status 500. */
  datatype Outcome = Redirected | Failed

  /** Ids increase in table order and are all below the counter's next id. */
  predicate ValidTable(rows: seq<Record>, nextId: nat) {
    && (forall i, j :: 0 <= i < j < |rows| ==> rows[i].id < rows[j].id)
    && (forall i :: 0 <= i < |rows| ==> rows[i].id < nextId)
  }

  /**
   * The `messages` table.  Ids come from a counter that only grows, and a DELETE does
   * not reset it; this is assumed of the table's id column, whose definition is not
   * part of this model.
   */
  class MessageStore {
    var rows: seq<Record>
    var nextId: nat

    ghost predicate Valid()
      reads this
    {
      ValidTable(rows, nextId)
    }

    /**
     * The connection to an existing `messages` table: whatever rows it holds, with ids
     * increasing in table order and all below the next id the counter hands out.
     */
    constructor (existing: seq<Record>, next: nat)
      requires ValidTable(existing, next)
      ensures Valid() && rows == existing && nextId == next
    {
      rows := existing;
      nextId := next;
    }

    /** `DELETE FROM messages` */
    method DeleteAll()
      requires Valid()
      modifies this
      ensures Valid() && rows == [] && nextId == old(nextId)
    {
      rows := [];
    }

    /** `INSERT INTO messages …`: a new row with the next id, after the others. */
    method Insert(e: Entry)
      requires Valid()
      modifies this
      ensures Valid()
      ensures rows == old(rows) + [Record(old(nextId), e)] && nextId == old(nextId) + 1
    {
      rows := rows + [Record(nextId, e)];
      nextId := nextId + 1;
    }

    /**
     * `POST /upload` with the file's text `data`: split into lines at `\n`, then
     * replaced by the entries of the matching lines.
     */
    method Upload(data: string, fault: Fault) returns (outcome: Outcome)
      requires Valid()
      modifies this
      ensures Valid()
      ensures fault == DeleteFails ==> outcome == Failed && rows == old(rows) && nextId == old(nextId)
      ensures fault != DeleteFails ==>
        var want := Ingested(Split(data, '\n'));
        var n := if fault.InsertFails? && fault.k < |want| then fault.k else |want|;
        && outcome == (if n < |want| then Failed else Redirected)
        && EntriesOf(rows) == want[..n]
        && nextId == old(nextId) + n
        && forall i :: 0 <= i < n ==> rows[i].id == old(nextId) + i
    {
      var lines := Split(data, '\n');
      outcome := ReplaceAll(lines, Ingest, fault);
    }

    /**
     * The body of the upload handler: the old rows are deleted, then the lines are read
     * in order and `entry` of each line that has one is inserted (the handler passes
     * Ingest: match, then normalise).  A failing DELETE leaves the table as it was; a
     * failing INSERT stops the loop and leaves the rows inserted before it, since
     * nothing is rolled back.
     */
    method ReplaceAll(lines: seq<string>, entry: string -> Option<Entry>, fault: Fault)
      returns (outcome: Outcome)
      requires Valid()
      modifies this
      ensures Valid()
      ensures fault == DeleteFails ==> outcome == Failed && rows == old(rows) && nextId == old(nextId)
      ensures fault != DeleteFails ==>
        var want := FilterMap(lines, entry);
        var n := if fault.InsertFails? && fault.k < |want| then fault.k else |want|;
        && outcome == (if n < |want| then Failed else Redirected)
        && EntriesOf(rows) == want[..n]
        && nextId == old(nextId) + n
        && forall i :: 0 <= i < n ==> rows[i].id == old(nextId) + i
    {
      if fault == DeleteFails {
        return Failed;
      }
      DeleteAll();
      var i := 0;
      while i < |lines|
        invariant 0 <= i <= |lines|
        invariant Valid()
        invariant EntriesOf(rows) == FilterMap(lines[..i], entry)
        invariant nextId == old(nextId) + |rows|
        invariant forall k :: 0 <= k < |rows| ==> rows[k].id == old(nextId) + k
        invariant fault.InsertFails? ==> |rows| <= fault.k
      {
        assert lines[..i + 1][..i] == lines[..i];
        match entry(lines[i]) {
          case None =>
          case Some(e) =>
            if fault == InsertFails(|rows|) {
              FilterMapPrefix(lines, i + 1, entry);
              return Failed;
            }
            Insert(e);
        }
        i := i + 1;
      }
      assert lines[..i] == lines;
      return Redirected;
    }

    /** `GET /search?q=…`; reads the table and changes nothing. */
    method Search(q: string) returns (results: seq<Record>)
      requires Valid()
      ensures results == Query.Search(rows, q)
      ensures DistinctIds(results)
    {
      results := Query.Search(rows, q);
    }

    /** `GET /all`; the rows as stored are already in id order.  Changes nothing. */
    method ListAll() returns (results: seq<Record>)
      requires Valid()
      ensures results == Query.ListAll(rows)
      ensures results == rows
    {
      results := Query.ListAll(rows);
    }
  }
}
