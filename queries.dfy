/** The read-only queries of the inventory page: the search filter, the
    newest-first product list, the name-ordered edit selection and the lookup
    of the record chosen for editing. */
module Queries {
  import opened Records
  import opened Text
  import opened Table

  /** `name ILIKE '%term%' OR supplier ILIKE '%term%'`. */
  predicate Matches(p: Product, term: string)
  {
    ContainsIgnoringCase(p.name, term) || ContainsIgnoringCase(p.supplier, term)
  }

  function MatchesTerm(term: string): Product -> bool
  {
    (p: Product) => Matches(p, term)
  }

  /** The search box: an empty term filters nothing, any other term keeps the
      rows whose name or supplier contains it, ignoring case. */
  function Search(rows: seq<Product>, term: string): (r: seq<Product>)
    ensures term == "" ==> r == rows
    ensures term != "" ==> forall p :: p in r <==> p in rows && Matches(p, term)
    ensures forall p :: p in r ==> p in rows
    ensures IdsAscending(rows) ==> IdsAscending(r)
  {
    WhereAscending(rows, MatchesTerm(term));
    if term == "" then rows else Where(rows, MatchesTerm(term))
  }

  /** The empty term would match every row anyway, so skipping the filter for
      it does not change the result. */
  lemma EmptyTermMatchesAll(rows: seq<Product>)
    ensures Where(rows, MatchesTerm("")) == rows
  {
    forall i | 0 <= i < |rows| ensures Matches(rows[i], "") {
      ContainsTrivial(Lower(rows[i].name));
    }
    WhereAllKept(rows, MatchesTerm(""));
  }

  /** Search with any term returns a sub-list of the table: fewer rows or as
      many, and only rows of the table. */
  lemma SearchIsSubset(rows: seq<Product>, term: string)
    ensures |Search(rows, term)| <= |rows|
    ensures multiset(Search(rows, term)) <= multiset(rows)
  {
    if term != "" {
      WhereSubMultiset(rows, MatchesTerm(term));
    }
  }

  predicate IdsDescending(rows: seq<Product>)
  {
    forall i, j :: 0 <= i < j < |rows| ==> rows[i].id > rows[j].id
  }

  function Reverse(s: seq<Product>): (r: seq<Product>)
    ensures |r| == |s|
    ensures forall i :: 0 <= i < |s| ==> r[i] == s[|s| - 1 - i]
    ensures multiset(r) == multiset(s)
  {
    if s == [] then []
    else
      var rest := Reverse(s[1..]);
      assert s == [s[0]] + s[1..];
      rest + [s[0]]
  }

  /** The product list: the search result ordered by key, newest first
      (`ORDER BY id DESC`). Rows are stored in ascending key order, so the
      ordered result is the reversed search result. */
  function Displayed(rows: seq<Product>, term: string): (r: seq<Product>)
    ensures multiset(r) == multiset(Search(rows, term))
    ensures IdsAscending(rows) ==> IdsDescending(r)
  {
    Reverse(Search(rows, term))
  }

  /** What the list shows: exactly the rows the search keeps, each once. */
  lemma DisplayedRows(rows: seq<Product>, term: string, p: Product)
    ensures p in Displayed(rows, term) <==> p in rows && (term == "" || Matches(p, term))
  {
    assert p in Displayed(rows, term) <==> p in multiset(Displayed(rows, term));
    assert p in Search(rows, term) <==> p in multiset(Search(rows, term));
  }

  /** `ORDER BY name` under the BINARY collation. */
  predicate SortedByName(s: seq<Product>)
  {
    forall i, j :: 0 <= i < j < |s| ==> CollateLe(s[i].name, s[j].name)
  }

  function InsertByName(p: Product, s: seq<Product>): (r: seq<Product>)
    requires SortedByName(s)
    ensures |r| == |s| + 1
    ensures SortedByName(r)
    ensures multiset(r) == multiset(s) + multiset{p}
  {
    if s == [] then [p]
    else if CollateLe(p.name, s[0].name) then
      BelowHead(p, s);
      [p] + s
    else
      var rest := InsertByName(p, s[1..]);
      assert s == [s[0]] + s[1..];
      HeadBelowInsert(p, s, rest);
      [s[0]] + rest
  }

  /** A row ordered before the first of a sorted list can go in front of it. */
  lemma BelowHead(p: Product, s: seq<Product>)
    requires SortedByName(s) && s != [] && CollateLe(p.name, s[0].name)
    ensures SortedByName([p] + s)
  {
    forall j | 0 < j < |s| ensures CollateLe(p.name, s[j].name) {
      CollateTransitive(p.name, s[0].name, s[j].name);
    }
  }

  /** The first of a sorted list stays in front when a later-ordered row is
      inserted into the rest of it. */
  lemma HeadBelowInsert(p: Product, s: seq<Product>, rest: seq<Product>)
    requires SortedByName(s) && s != [] && !CollateLe(p.name, s[0].name)
    requires SortedByName(rest) && multiset(rest) == multiset(s[1..]) + multiset{p}
    ensures SortedByName([s[0]] + rest)
  {
    CollateTotal(p.name, s[0].name);
    forall j | 0 <= j < |rest| ensures CollateLe(s[0].name, rest[j].name) {
      assert rest[j] in multiset(rest);
      if rest[j] != p {
        assert rest[j] in s[1..];
      }
    }
  }

  /** The edit-selection list: every row once, names in ascending order. Rows
      with equal names are not ordered further. */
  function SortByName(s: seq<Product>): (r: seq<Product>)
    ensures |r| == |s|
    ensures SortedByName(r)
    ensures multiset(r) == multiset(s)
  {
    if s == [] then []
    else
      assert s == [s[0]] + s[1..];
      InsertByName(s[0], SortByName(s[1..]))
  }

  function Names(s: seq<Product>): (names: seq<string>)
    ensures |names| == |s|
    ensures forall i :: 0 <= i < |s| ==> names[i] == s[i].name
  {
    seq(|s|, i requires 0 <= i < |s| => s[i].name)
  }

  /** The names offered in the edit selection box: each row's name exactly
      as often as the table has it, in ascending order. */
  function SelectionOptions(rows: seq<Product>): (names: seq<string>)
    ensures |names| == |rows|
    ensures forall i, j :: 0 <= i < j < |names| ==> CollateLe(names[i], names[j])
    ensures multiset(names) == multiset(Names(rows))
    ensures forall n :: n in names <==> n in Names(rows)
  {
    SortKeepsNames(rows);
    var names := Names(SortByName(rows));
    assert forall n :: n in names <==> n in multiset(names);
    assert forall n :: n in Names(rows) <==> n in multiset(Names(rows));
    names
  }

  lemma NamesCons(s: seq<Product>)
    requires s != []
    ensures Names(s) == [s[0].name] + Names(s[1..])
  {
  }

  lemma NamesConcat(a: seq<Product>, b: seq<Product>)
    ensures Names(a + b) == Names(a) + Names(b)
  {
  }

  /** Inserting a row adds its name once to the names of the list. */
  lemma {:induction false} InsertKeepsNames(p: Product, s: seq<Product>)
    requires SortedByName(s)
    ensures multiset(Names(InsertByName(p, s))) == multiset(Names(s)) + multiset{p.name}
  {
    if s == [] {
    } else if CollateLe(p.name, s[0].name) {
      NamesConcat([p], s);
    } else {
      InsertKeepsNames(p, s[1..]);
      NamesConcat([s[0]], InsertByName(p, s[1..]));
      NamesConcat([s[0]], s[1..]);
      assert s == [s[0]] + s[1..];
    }
  }

  /** Sorting keeps every name as often as the table has it. */
  lemma {:induction false} SortKeepsNames(s: seq<Product>)
    ensures multiset(Names(SortByName(s))) == multiset(Names(s))
  {
    if s != [] {
      var sortedRest := SortByName(s[1..]);
      SortKeepsNames(s[1..]);
      InsertKeepsNames(s[0], sortedRest);
      NamesCons(s);
      calc {
        multiset(Names(SortByName(s)));
        multiset(Names(InsertByName(s[0], sortedRest)));
        multiset(Names(sortedRest)) + multiset{s[0].name};
        multiset(Names(s[1..])) + multiset{s[0].name};
        multiset(Names(s));
      }
    }
  }

  /** `filter(name == selected).first()`: the first row, in table order, whose
      name is exactly the selected one. */
  function FindByName(rows: seq<Product>, name: string): (r: Option<nat>)
    ensures r.Some? ==> r.value < |rows| && rows[r.value].name == name
    ensures r.Some? ==> forall j :: 0 <= j < r.value ==> rows[j].name != name
    ensures r.None? <==> forall j :: 0 <= j < |rows| ==> rows[j].name != name
  {
    if rows == [] then None
    else if rows[0].name == name then Some(0)
    else
      match FindByName(rows[1..], name)
      case None =>
        assert forall j :: 1 <= j < |rows| ==> rows[j] == rows[1..][j - 1];
        None
      case Some(k) => Some(k + 1)
  }

  /** The record the form edits: none when nothing (or an empty name) is
      selected, otherwise the first row carrying the selected name. */
  function EditTarget(rows: seq<Product>, selected: Option<string>): (r: Option<nat>)
    ensures r.Some? ==> selected.Some? && r.value < |rows| && rows[r.value].name == selected.value
    ensures selected.Some? && selected.value != "" && (exists j :: 0 <= j < |rows| && rows[j].name == selected.value)
            ==> r.Some?
  {
    if selected.Some? && selected.value != "" then FindByName(rows, selected.value) else None
  }

  /** Selecting a name reaches a row exactly when no earlier row carries the
      same name: of several rows sharing a name only the first can be edited. */
  lemma FirstOfNameReachable(rows: seq<Product>, j: nat)
    requires j < |rows| && rows[j].name != ""
    ensures EditTarget(rows, Some(rows[j].name)) == Some(j)
            <==> forall i :: 0 <= i < j ==> rows[i].name != rows[j].name
  {
    var r := EditTarget(rows, Some(rows[j].name));
    if forall i :: 0 <= i < j ==> rows[i].name != rows[j].name {
      assert r.Some?;
    }
  }
}
