/** The index page's search: every violation when no term is given, otherwise
    those whose name or licence plate contains the term. */
module Search {
  import opened Results
  import opened Records

  /** `term` occurs in `text` starting at index `i`. */
  predicate OccursAt(text: string, term: string, i: int) {
    0 <= i && i + |term| <= |text| && text[i..i + |term|] == term
  }

  /** `term` occurs somewhere in `text`. */
  predicate Contains(text: string, term: string) {
    exists i :: 0 <= i <= |text| && OccursAt(text, term, i)
  }

  /** The query's filter: the name OR the licence plate contains the term.
      The empty term is contained in every text, and a term longer than both
      fields matches neither. */
  predicate Matches(v: Violation, term: string): (m: bool)
    ensures term == "" ==> m
    ensures m ==> |term| <= |v.name| || |term| <= |v.licensePlate|
  {
    assert OccursAt(v.name, [], 0);
    Contains(v.name, term) || Contains(v.licensePlate, term)
  }

  /** `if search:` holds for a present, non-empty term. */
  predicate IsFiltering(search: Option<string>) {
    search.Some? && search.value != ""
  }

  /** Whether the index page lists `v` for the given search parameter. */
  predicate Shows(search: Option<string>, v: Violation) {
    !IsFiltering(search) || Matches(v, search.value)
  }

  /** The rows that match `term`, in their original order. */
  function Where(rows: seq<Violation>, term: string): (r: seq<Violation>)
    ensures |r| <= |rows|
    ensures forall v :: v in r <==> v in rows && Matches(v, term)
  {
    if rows == [] then []
    else (if Matches(rows[0], term) then [rows[0]] else []) + Where(rows[1..], term)
  }

  /** The list the index page shows, given the rows as the table returned them. */
  function Index(rows: seq<Violation>, search: Option<string>): (r: seq<Violation>)
    ensures !IsFiltering(search) ==> r == rows
    ensures forall v :: v in r <==> v in rows && Shows(search, v)
  {
    if IsFiltering(search) then Where(rows, search.value) else rows
  }

  /** A row occurs in the filtered list as often as in the input if it
      matches, and not at all otherwise. */
  lemma {:induction false} WhereCount(rows: seq<Violation>, term: string, v: Violation)
    ensures multiset(Where(rows, term))[v] == if Matches(v, term) then multiset(rows)[v] else 0
  {
    if rows != [] {
      WhereCount(rows[1..], term, v);
      assert rows == [rows[0]] + rows[1..];
    }
  }

  /** The rows of a table that the index page lists, keyed by id. */
  function Selection(table: map<int, Violation>, search: Option<string>): (m: map<int, Violation>)
    ensures m.Keys <= table.Keys
    ensures forall id :: id in m ==> m[id] == table[id] && Shows(search, table[id])
    ensures forall id :: id in table && Shows(search, table[id]) ==> id in m
  {
    map id | id in table && Shows(search, table[id]) :: table[id]
  }

  /** The rows stored in a table. */
  function RowsOf(table: map<int, Violation>): (rows: set<Violation>)
    ensures forall id :: id in table ==> table[id] in rows
    ensures forall v :: v in rows ==> exists id :: id in table && table[id] == v
  {
    set id | id in table :: table[id]
  }

  /** `rows` holds every row of the table exactly once, in some order: the
      query has no ORDER BY, so no particular order is promised. Every row
      carries its own id as its key, so rows under distinct ids are distinct
      values and none is lost in `RowsOf`. */
  ghost predicate IsListing(rows: seq<Violation>, table: map<int, Violation>) {
    && (forall id :: id in table ==> table[id].id == id)
    && multiset(rows) == multiset(RowsOf(table))
  }

  /** The selection holds exactly the table's rows the page shows. */
  lemma SelectionRows(table: map<int, Violation>, search: Option<string>, v: Violation)
    ensures v in RowsOf(Selection(table, search)) <==> v in RowsOf(table) && Shows(search, v)
  {
    var selected := Selection(table, search);
    if v in RowsOf(selected) {
      var id :| id in selected.Keys && selected[id] == v;
      assert table[id] == v;
    }
    if v in RowsOf(table) && Shows(search, v) {
      var id :| id in table.Keys && table[id] == v;
      assert selected[id] == v;
    }
  }

  /** Whatever order the table returns its rows in, the index page lists each
      row of the selection exactly once and nothing else. */
  lemma IndexListsSelection(rows: seq<Violation>, table: map<int, Violation>, search: Option<string>)
    requires IsListing(rows, table)
    ensures IsListing(Index(rows, search), Selection(table, search))
  {
    var listed, selected := Index(rows, search), Selection(table, search);
    forall v ensures multiset(listed)[v] == multiset(RowsOf(selected))[v] {
      if IsFiltering(search) {
        WhereCount(rows, search.value, v);
      }
      SelectionRows(table, search, v);
    }
    assert multiset(listed) == multiset(RowsOf(selected));
  }
}
