/**
 * The read-only views over the book table: the search (`search_books`), the distinct shelf
 * listing (`inventory_summary`) and the per-shelf grouped totals (`shelf_detail`).
 */
module Queries {
  import opened Wrappers
  import opened Seqs
  import opened Text
  import opened Models
  import opened Forms

  // ---------------------------------------------------------------- search_books

  /** `Book.objects.filter(title__icontains=q)`: the records whose title contains `q`,
      ignoring case, each under its own id. */
  function TitleMatches(books: map<nat, Book>, q: string): (r: map<nat, Book>)
    ensures r.Keys <= books.Keys
    ensures forall id :: id in r ==> r[id] == books[id]
    ensures forall id :: id in books ==> (id in r <==> Occurs(q, books[id].title))
  {
    forall id | id in books ensures ContainsIgnoreCase(books[id].title, q) <==> Occurs(q, books[id].title) {
      ContainsIgnoreCaseCorrect(books[id].title, q);
    }
    map id | id in books && ContainsIgnoreCase(books[id].title, q) :: books[id]
  }

  /** `Book.objects.filter(authors__icontains=q)`: the records whose authors contain `q`,
      ignoring case, each under its own id. */
  function AuthorsMatches(books: map<nat, Book>, q: string): (r: map<nat, Book>)
    ensures r.Keys <= books.Keys
    ensures forall id :: id in r ==> r[id] == books[id]
    ensures forall id :: id in books ==> (id in r <==> Occurs(q, books[id].authors))
  {
    forall id | id in books ensures ContainsIgnoreCase(books[id].authors, q) <==> Occurs(q, books[id].authors) {
      ContainsIgnoreCaseCorrect(books[id].authors, q);
    }
    map id | id in books && ContainsIgnoreCase(books[id].authors, q) :: books[id]
  }

  /** A record matches a stripped query when its title or its authors contain it, ignoring
      case. */
  ghost predicate Matches(b: Book, q: string) {
    Occurs(q, b.title) || Occurs(q, b.authors)
  }

  /**
   * `search_books`: the query is stripped; an empty query finds nothing, even when there are
   * records; otherwise the result is the union of the title filter and the authors filter,
   * which holds every matching record once, under its own id.
   */
  function Search(books: map<nat, Book>, query: string): (r: map<nat, Book>)
    ensures r.Keys <= books.Keys
    ensures forall id :: id in r ==> r[id] == books[id]
    ensures Strip(query) == [] ==> r == map[]
    ensures forall id :: id in books ==>
              (id in r <==> Strip(query) != [] && Matches(books[id], Strip(query)))
  {
    var q := Strip(query);
    if q == [] then map[]
    else
      TitleMatches(books, q) + AuthorsMatches(books, q)
  }

  /** A query of whitespace only returns nothing, whatever is stored. */
  lemma SearchBlankFindsNothing(books: map<nat, Book>, query: string)
    requires AllSpace(query)
    ensures Search(books, query) == map[]
  {
    StripEmptyIff(query);
  }

  const Dune := Book("Dune", "Frank Herbert", "English", 1965, 2000, "Science fiction", "A", 2, 999)
  const Hobbit := Book("Hobbit", "Tolkien", "English", 1937, 10000, "Fantasy", "B", 1, 1299)

  lemma DuneMatchesHerb()
    ensures Matches(Dune, "herb")
  {
    var hay := "Frank Herbert";
    assert hay[6..] == "Herbert";
    assert StartsWithIgnoreCase("Herbert", "herb");
    StartsWithIgnoreCaseCorrect("Herbert", "herb");
    assert LowerAll(hay)[6..] == LowerAll(hay[6..]);
  }

  lemma HobbitMissesHerb()
    ensures !Matches(Hobbit, "herb")
  {
    assert !ContainsIgnoreCase("Hobbit", "herb");
    assert !ContainsIgnoreCase("Tolkien", "herb");
    ContainsIgnoreCaseCorrect("Hobbit", "herb");
    ContainsIgnoreCaseCorrect("Tolkien", "herb");
  }

  /** Two records: "herb" finds Dune by its author and not The Hobbit. */
  lemma SearchExample()
    ensures Search(map[1 := Dune, 2 := Hobbit], "herb") == map[1 := Dune]
  {
    var books := map[1 := Dune, 2 := Hobbit];
    StripUnspaced("herb");
    DuneMatchesHerb();
    HobbitMissesHerb();
    SearchFindsOne(books, "herb", 1);
  }

  /** When exactly one record matches, the search returns that record alone. */
  lemma SearchFindsOne(books: map<nat, Book>, query: string, id: nat)
    requires id in books && Strip(query) != [] && Matches(books[id], Strip(query))
    requires forall j :: j in books && j != id ==> !Matches(books[j], Strip(query))
    ensures Search(books, query) == map[id := books[id]]
  {
    assert Search(books, query).Keys == {id};
  }

  // ---------------------------------------------------------------- inventory_summary

  /** `values_list('shelves', flat=True).distinct()`: each shelf value some record has. */
  function InventorySummary(books: map<nat, Book>): (r: set<string>)
    ensures forall s :: s in r <==> exists id :: id in books && books[id].shelves == s
  {
    set id | id in books :: books[id].shelves
  }

  /** There are never more distinct shelves listed than records. */
  lemma {:induction false} InventorySummarySize(books: map<nat, Book>)
    ensures |InventorySummary(books)| <= |books|
    decreases |books|
  {
    if books != map[] {
      var id :| id in books;
      var rest := books - {id};
      assert |rest| == |books| - 1;
      InventorySummarySize(rest);
      assert InventorySummary(books) <= InventorySummary(rest) + {books[id].shelves} by {
        forall s | s in InventorySummary(books)
          ensures s in InventorySummary(rest) + {books[id].shelves}
        {
          var j :| j in books && books[j].shelves == s;
          if j != id { assert j in rest; }
        }
      }
      SubsetSize(InventorySummary(books), InventorySummary(rest) + {books[id].shelves});
    }
  }

  lemma SubsetSize<T>(a: set<T>, b: set<T>)
    requires a <= b
    ensures |a| <= |b|
  {
    assert b == a + (b - a);
  }

  /** When every record went through the form, the summary lists only letters A to H, so at
      most eight shelves. */
  lemma InventorySummaryOfValidated(books: map<nat, Book>)
    requires forall id :: id in books ==> Admissible(books[id])
    ensures InventorySummary(books) <= ValidShelves
    ensures |InventorySummary(books)| <= 8
  {
    SubsetSize(InventorySummary(books), ValidShelves);
    ValidShelvesCount();
  }

  // ---------------------------------------------------------------- shelf_detail

  /** One row of the grouped shelf listing: a `(title, authors)` pair and its total copies. */
  datatype Group = Group(title: string, authors: string, total: int)

  /** The shelf page: the groups, ordered by title, and how many there are. */
  datatype ShelfReport = ShelfReport(groups: seq<Group>, distinctBooksCount: nat)

  function Key(b: Book): (string, string) {
    (b.title, b.authors)
  }

  function GroupKey(g: Group): (string, string) {
    (g.title, g.authors)
  }

  /** `filter(shelves=shelf)`: the rows on the shelf, each as often as it occurs, in order. */
  function OnShelf(rows: seq<Book>, shelf: string): (r: seq<Book>)
    ensures forall b :: multiset(r)[b] == if b.shelves == shelf then multiset(rows)[b] else 0
  {
    if rows == [] then []
    else
      var init, last := rows[..|rows| - 1], rows[|rows| - 1];
      assert rows == init + [last];
      OnShelf(init, shelf) + (if last.shelves == shelf then [last] else [])
  }

  lemma OnShelfMembers(rows: seq<Book>, shelf: string)
    ensures forall b :: b in OnShelf(rows, shelf) <==> b in rows && b.shelves == shelf
  {
    forall b ensures b in OnShelf(rows, shelf) <==> b in rows && b.shelves == shelf {
      assert b in OnShelf(rows, shelf) <==> b in multiset(OnShelf(rows, shelf));
      assert b in rows <==> b in multiset(rows);
    }
  }

  /** The distinct `(title, authors)` pairs of `rows`, in order of first occurrence. */
  function DistinctKeys(rows: seq<Book>): (ks: seq<(string, string)>)
    ensures NoDup(ks)
    ensures forall k :: k in ks <==> exists i :: 0 <= i < |rows| && Key(rows[i]) == k
  {
    if rows == [] then []
    else
      var init, last := rows[..|rows| - 1], rows[|rows| - 1];
      var ks := DistinctKeys(init);
      assert forall i :: 0 <= i < |init| ==> init[i] == rows[i];
      if Key(last) in ks then ks else ks + [Key(last)]
  }

  /** `Sum('number_of_books')` over the rows of one group: when no row has a negative count, as
      the form guarantees, it lies between zero and all copies of the rows. */
  function KeyTotal(rows: seq<Book>, k: (string, string)): (r: int)
    ensures (forall i :: 0 <= i < |rows| ==> rows[i].numberOfBooks >= 0) ==> 0 <= r <= Stock(rows)
  {
    if rows == [] then 0
    else
      var last := rows[|rows| - 1];
      KeyTotal(rows[..|rows| - 1], k) + (if Key(last) == k then last.numberOfBooks else 0)
  }

  /** All copies in `rows`. */
  function Stock(rows: seq<Book>): int {
    if rows == [] then 0 else Stock(rows[..|rows| - 1]) + rows[|rows| - 1].numberOfBooks
  }

  /** `.values('title', 'authors').annotate(total=...)`: one group per key. */
  function GroupsFor(ks: seq<(string, string)>, rows: seq<Book>): (gs: seq<Group>)
    ensures |gs| == |ks|
    ensures forall i :: 0 <= i < |ks| ==> gs[i] == Group(ks[i].0, ks[i].1, KeyTotal(rows, ks[i]))
  {
    if ks == [] then [] else [Group(ks[0].0, ks[0].1, KeyTotal(rows, ks[0]))] + GroupsFor(ks[1..], rows)
  }

  function GroupSum(gs: seq<Group>): int {
    if gs == [] then 0 else gs[0].total + GroupSum(gs[1..])
  }

  predicate SortedByTitle(gs: seq<Group>) {
    forall i, j :: 0 <= i < j < |gs| ==> LexLe(gs[i].title, gs[j].title)
  }

  predicate KeysDistinct(gs: seq<Group>) {
    forall i, j :: 0 <= i < j < |gs| ==> GroupKey(gs[i]) != GroupKey(gs[j])
  }

  /** Places `g` before the first group whose title is not below its own. */
  function Insert(g: Group, gs: seq<Group>): (r: seq<Group>)
    ensures |r| == |gs| + 1
    ensures multiset(r) == multiset(gs) + multiset{g}
    ensures GroupSum(r) == g.total + GroupSum(gs)
  {
    if gs == [] then [g]
    else if LexLe(g.title, gs[0].title) then
      assert ([g] + gs)[1..] == gs;
      [g] + gs
    else
      assert ([gs[0]] + Insert(g, gs[1..]))[1..] == Insert(g, gs[1..]);
      assert gs == [gs[0]] + gs[1..];
      [gs[0]] + Insert(g, gs[1..])
  }

  /** `.order_by('title')`, as an insertion sort. */
  function SortByTitle(gs: seq<Group>): (r: seq<Group>)
    ensures |r| == |gs|
    ensures multiset(r) == multiset(gs)
    ensures GroupSum(r) == GroupSum(gs)
  {
    if gs == [] then [] else
      assert gs == [gs[0]] + gs[1..];
      Insert(gs[0], SortByTitle(gs[1..]))
  }

  lemma {:induction false} InsertSorted(g: Group, gs: seq<Group>)
    requires SortedByTitle(gs)
    ensures SortedByTitle(Insert(g, gs))
  {
    if gs != [] {
      if LexLe(g.title, gs[0].title) {
        forall j | 0 < j < |gs| ensures LexLe(g.title, gs[j].title) {
          LexLeTransitive(g.title, gs[0].title, gs[j].title);
        }
      } else {
        LexLeTotal(g.title, gs[0].title);
        InsertSorted(g, gs[1..]);
        var t := Insert(g, gs[1..]);
        forall x | x in t ensures LexLe(gs[0].title, x.title) {
          assert x in multiset(t);
          if x != g { assert x in gs[1..]; }
        }
      }
    }
  }

  lemma {:induction false} InsertKeysDistinct(g: Group, gs: seq<Group>)
    requires KeysDistinct(gs)
    requires forall x :: x in gs ==> GroupKey(x) != GroupKey(g)
    ensures KeysDistinct(Insert(g, gs))
  {
    if gs != [] && !LexLe(g.title, gs[0].title) {
      InsertKeysDistinct(g, gs[1..]);
      var t := Insert(g, gs[1..]);
      forall x | x in t ensures GroupKey(x) != GroupKey(gs[0]) {
        assert x in multiset(t);
        if x != g { assert x in gs[1..]; }
      }
    }
  }

  lemma {:induction false} SortByTitleProperties(gs: seq<Group>)
    ensures SortedByTitle(SortByTitle(gs))
    ensures KeysDistinct(gs) ==> KeysDistinct(SortByTitle(gs))
  {
    if gs != [] {
      SortByTitleProperties(gs[1..]);
      InsertSorted(gs[0], SortByTitle(gs[1..]));
      if KeysDistinct(gs) {
        forall x | x in SortByTitle(gs[1..]) ensures GroupKey(x) != GroupKey(gs[0]) {
          assert x in multiset(SortByTitle(gs[1..]));
          assert x in gs[1..];
        }
        InsertKeysDistinct(gs[0], SortByTitle(gs[1..]));
      }
    }
  }

  /**
   * `shelf_detail` as its comment intends: the rows on `shelf`, grouped by `(title, authors)`,
   * each group totalling its `number_of_books`, ordered by title, with the number of groups.
   */
  function ShelfDetail(rows: seq<Book>, shelf: string): (r: ShelfReport)
    ensures SortedByTitle(r.groups)
    ensures KeysDistinct(r.groups)
    ensures r.distinctBooksCount == |r.groups| == |DistinctKeys(OnShelf(rows, shelf))|
  {
    var on := OnShelf(rows, shelf);
    var ks := DistinctKeys(on);
    var unsorted := GroupsFor(ks, on);
    SortByTitleProperties(unsorted);
    var groups := SortByTitle(unsorted);
    ShelfReport(groups, |groups|)
  }

  lemma KeyTotalAppend(init: seq<Book>, x: Book, k: (string, string))
    ensures KeyTotal(init + [x], k) == KeyTotal(init, k) + (if Key(x) == k then x.numberOfBooks else 0)
  {
    assert (init + [x])[..|init|] == init;
  }

  lemma {:induction false} KeyTotalAbsent(rows: seq<Book>, k: (string, string))
    requires forall i :: 0 <= i < |rows| ==> Key(rows[i]) != k
    ensures KeyTotal(rows, k) == 0
  {
    if rows != [] {
      KeyTotalAbsent(rows[..|rows| - 1], k);
    }
  }

  /** Adding a row adds its copies to the one group it belongs to, if that group is listed. */
  lemma {:induction false} GroupsForAppendRow(ks: seq<(string, string)>, init: seq<Book>, x: Book)
    requires NoDup(ks)
    ensures GroupSum(GroupsFor(ks, init + [x]))
            == GroupSum(GroupsFor(ks, init)) + (if Key(x) in ks then x.numberOfBooks else 0)
  {
    if ks != [] {
      NoDupTail(ks);
      GroupsForAppendRow(ks[1..], init, x);
      KeyTotalAppend(init, x, ks[0]);
      assert ks == [ks[0]] + ks[1..];
      assert Key(x) in ks <==> Key(x) == ks[0] || Key(x) in ks[1..];
    }
  }

  /** Listing one more key adds that key's total. */
  lemma {:induction false} GroupsForAppendKey(ks: seq<(string, string)>, c: (string, string), rows: seq<Book>)
    ensures GroupSum(GroupsFor(ks + [c], rows)) == GroupSum(GroupsFor(ks, rows)) + KeyTotal(rows, c)
  {
    if ks == [] {
      assert GroupsFor([c], rows) == [Group(c.0, c.1, KeyTotal(rows, c))];
    } else {
      assert (ks + [c])[1..] == ks[1..] + [c];
      GroupsForAppendKey(ks[1..], c, rows);
    }
  }

  /** Grouping loses no copies: the group totals add up to all copies of the rows. */
  lemma {:induction false} GroupedStock(rows: seq<Book>)
    ensures GroupSum(GroupsFor(DistinctKeys(rows), rows)) == Stock(rows)
  {
    if rows != [] {
      var init, x := rows[..|rows| - 1], rows[|rows| - 1];
      assert rows == init + [x];
      var ks := DistinctKeys(init);
      GroupedStock(init);
      GroupsForAppendRow(ks, init, x);
      if Key(x) !in ks {
        GroupsForAppendKey(ks, Key(x), rows);
        KeyTotalAppend(init, x, Key(x));
        KeyTotalAbsent(init, Key(x));
      }
    }
  }

  /** The group totals of a shelf add up to every copy stored on it. */
  lemma ShelfDetailConservation(rows: seq<Book>, shelf: string)
    ensures GroupSum(ShelfDetail(rows, shelf).groups) == Stock(OnShelf(rows, shelf))
  {
    GroupedStock(OnShelf(rows, shelf));
  }

  lemma FromFiltered(rows: seq<Book>, shelf: string, i: nat)
    requires i < |OnShelf(rows, shelf)|
    ensures exists j :: 0 <= j < |rows| && rows[j] == OnShelf(rows, shelf)[i] && rows[j].shelves == shelf
  {
    var b := OnShelf(rows, shelf)[i];
    assert b in multiset(OnShelf(rows, shelf));
    assert b in multiset(rows);
  }

  lemma ToFiltered(rows: seq<Book>, shelf: string, i: nat)
    requires i < |rows| && rows[i].shelves == shelf
    ensures exists j :: 0 <= j < |OnShelf(rows, shelf)| && OnShelf(rows, shelf)[j] == rows[i]
  {
    assert rows[i] in multiset(rows);
    assert rows[i] in multiset(OnShelf(rows, shelf));
  }

  /** A key occurs among the filtered rows exactly when a row of the shelf carries it. */
  lemma OnShelfKey(rows: seq<Book>, shelf: string, k: (string, string))
    ensures k in DistinctKeys(OnShelf(rows, shelf)) <==>
            exists i :: 0 <= i < |rows| && rows[i].shelves == shelf && Key(rows[i]) == k
  {
    var on := OnShelf(rows, shelf);
    if k in DistinctKeys(on) {
      var i :| 0 <= i < |on| && Key(on[i]) == k;
      FromFiltered(rows, shelf, i);
    }
    if exists i :: 0 <= i < |rows| && rows[i].shelves == shelf && Key(rows[i]) == k {
      var i :| 0 <= i < |rows| && rows[i].shelves == shelf && Key(rows[i]) == k;
      ToFiltered(rows, shelf, i);
    }
  }

  lemma GroupsForMember(ks: seq<(string, string)>, rows: seq<Book>, g: Group)
    ensures g in GroupsFor(ks, rows) <==> GroupKey(g) in ks && g.total == KeyTotal(rows, GroupKey(g))
  {
    var gs := GroupsFor(ks, rows);
    if g in gs {
      var i :| 0 <= i < |gs| && gs[i] == g;
      assert ks[i] == GroupKey(g);
    }
    if GroupKey(g) in ks && g.total == KeyTotal(rows, GroupKey(g)) {
      var i :| 0 <= i < |ks| && ks[i] == GroupKey(g);
      assert gs[i] == g;
    }
  }

  /** The groups are exactly the keys present on the shelf, each with the sum of its rows'
      copies. */
  lemma ShelfDetailGroups(rows: seq<Book>, shelf: string, g: Group)
    ensures g in ShelfDetail(rows, shelf).groups <==>
            && (exists i :: 0 <= i < |rows| && rows[i].shelves == shelf && Key(rows[i]) == GroupKey(g))
            && g.total == KeyTotal(OnShelf(rows, shelf), GroupKey(g))
  {
    var on := OnShelf(rows, shelf);
    var unsorted := GroupsFor(DistinctKeys(on), on);
    assert g in ShelfDetail(rows, shelf).groups <==> g in multiset(SortByTitle(unsorted));
    GroupsForMember(DistinctKeys(on), on, g);
    OnShelfKey(rows, shelf, GroupKey(g));
  }

  /** The count on the page is the number of distinct `(title, authors)` pairs on the shelf. */
  lemma ShelfDetailCount(rows: seq<Book>, shelf: string)
    ensures ShelfDetail(rows, shelf).distinctBooksCount
            == |set i | 0 <= i < |rows| && rows[i].shelves == shelf :: Key(rows[i])|
  {
    var ks := DistinctKeys(OnShelf(rows, shelf));
    NoDupCardinality(ks);
    var present := set i | 0 <= i < |rows| && rows[i].shelves == shelf :: Key(rows[i]);
    forall k | k in Elements(ks) ensures k in present {
      OnShelfKey(rows, shelf, k);
    }
    forall k | k in present ensures k in Elements(ks) {
      OnShelfKey(rows, shelf, k);
    }
    assert Elements(ks) == present;
  }

  const CopyOne := Book("X", "Y", "English", 2000, 100, "Novel", "A", 2, 500)
  const CopyTwo := Book("X", "Y", "English", 2000, 100, "Novel", "A", 3, 500)

  /** Two rows of the same book on shelf A make one group of five copies. */
  lemma ShelfDetailExample()
    ensures ShelfDetail([CopyOne, CopyTwo], "A") == ShelfReport([Group("X", "Y", 5)], 1)
  {
    var rows := [CopyOne, CopyTwo];
    assert rows[..1] == [CopyOne];
    assert [CopyOne][..0] == [];
    assert OnShelf([CopyOne], "A") == [CopyOne];
    assert OnShelf(rows, "A") == rows;
    assert DistinctKeys([CopyOne]) == [("X", "Y")];
    var ks := DistinctKeys(rows);
    assert ks == [("X", "Y")];
    assert KeyTotal([CopyOne], ("X", "Y")) == 2;
    assert KeyTotal(rows, ("X", "Y")) == 5;
    assert GroupsFor(ks, rows) == [Group("X", "Y", 5)];
  }

  // ---------------------------------------------------------------- shelf_detail as written

  datatype PyError = TypeError

  /** Python's builtin `sum` over a str: it adds each character to the start value 0, and
      adding a str to an int raises TypeError, so only the empty string sums (to 0). */
  function BuiltinSumOfText(s: string): (r: Result<int, PyError>)
    ensures r.Ok? <==> s == []
  {
    if s == [] then Ok(0) else Err(TypeError)
  }

  /**
   * `shelf_detail` as written: the argument of `annotate` is `sum('number_of_books')`, the
   * builtin and not the `Sum` aggregate, and it is evaluated before any query runs. Were it to
   * return a number, `annotate` would refuse a non-expression with TypeError as well.
   */
  function ShelfDetailAsWritten(rows: seq<Book>, shelf: string): (r: Result<ShelfReport, PyError>)
    ensures r == Err(TypeError)
  {
    match BuiltinSumOfText("number_of_books")
    case Err(e) => Err(e)
    case Ok(_) => Err(TypeError)
  }

  /** As written, the view raises for every shelf and every table, where the intended view
      reports the grouped totals (five copies in the example). */
  lemma ShelfDetailAsWrittenRaises()
    ensures ShelfDetailAsWritten([CopyOne, CopyTwo], "A").Err?
            && ShelfDetail([CopyOne, CopyTwo], "A").groups == [Group("X", "Y", 5)]
  {
    ShelfDetailExample();
  }
}
