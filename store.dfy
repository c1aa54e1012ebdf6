/**
 * The `Book` table as the create, edit, delete, detail and list views use it: records by
 * primary key plus the counter the table hands the next key out from. Keys start at 1 and are
 * never handed out twice, as with an AUTOINCREMENT key in SQLite.
 */
module Store {
  import opened Wrappers
  import opened Seqs
  import opened Text
  import opened Models
  import opened Forms
  import opened Queries

  /** The page a create, edit or delete request ends in. */
  datatype Response =
    | Saved(id: nat)            // redirect after `form.save()`
    | Invalid(errors: Errors)   // the form shown again, with its field errors
    | FormShown                 // a GET: the (blank or pre-filled) form
    | ConfirmDelete(book: Book) // a GET on delete: the confirmation page
    | Deleted                   // redirect after `book.delete()`
    | NotFound                  // `get_object_or_404` found no record

  /** Every record satisfies the form's rules (the year rule aside). */
  ghost predicate AllAdmissible(books: map<nat, Book>) {
    forall id :: id in books ==> Admissible(books[id])
  }

  /** The keys of `books` below `n`, in increasing order. */
  function IdsBelow(books: map<nat, Book>, n: nat): (ids: seq<nat>)
    ensures forall i, j :: 0 <= i < j < |ids| ==> ids[i] < ids[j]
    ensures forall id :: id in ids <==> id in books && id < n
  {
    if n == 0 then []
    else
      var below := IdsBelow(books, n - 1);
      assert forall i :: 0 <= i < |below| ==> below[i] in below;
      below + (if n - 1 in books then [n - 1] else [])
  }

  /** When every key is below `n`, `IdsBelow` lists each key exactly once. */
  lemma IdsBelowCount(books: map<nat, Book>, n: nat)
    requires forall id :: id in books ==> id < n
    ensures |IdsBelow(books, n)| == |books|
  {
    var ids := IdsBelow(books, n);
    forall i, j | 0 <= i < |ids| && 0 <= j < |ids| && i != j ensures ids[i] != ids[j] {
      if i < j { assert ids[i] < ids[j]; } else { assert ids[j] < ids[i]; }
    }
    NoDupCardinality(ids);
    assert Elements(ids) == books.Keys;
  }

  /** The records of `books`, in key order, when every key is below `n`: row `i` is the record
      under the `i`-th smallest key, so each record appears once per key that holds it. */
  function Rows(books: map<nat, Book>, n: nat): (rows: seq<Book>)
    requires forall id :: id in books ==> id < n
    ensures |rows| == |books| == |IdsBelow(books, n)|
    ensures forall i :: 0 <= i < |rows| ==> rows[i] == books[IdsBelow(books, n)[i]]
    ensures forall b :: b in rows <==> exists id :: id in books && books[id] == b
  {
    var ids := IdsBelow(books, n);
    IdsBelowCount(books, n);
    var rows := seq(|ids|, i requires 0 <= i < |ids| => books[ids[i]]);
    IndexedRowsMembers(books, ids, rows);
    rows
  }

  /** Rows read off a list of all the keys hold exactly the stored records. */
  lemma IndexedRowsMembers(books: map<nat, Book>, ids: seq<nat>, rows: seq<Book>)
    requires |rows| == |ids|
    requires forall i :: 0 <= i < |ids| ==> ids[i] in books && rows[i] == books[ids[i]]
    requires forall id :: id in books ==> id in ids
    ensures forall b :: b in rows <==> exists id :: id in books && books[id] == b
  {
    forall b | exists id :: id in books && books[id] == b ensures b in rows {
      var id :| id in books && books[id] == b;
      var i :| 0 <= i < |ids| && ids[i] == id;
      assert rows[i] == b;
    }
    forall b | b in rows ensures exists id :: id in books && books[id] == b {
      var i :| 0 <= i < |rows| && rows[i] == b;
      assert ids[i] in books;
    }
  }

  class BookStore {
    var books: map<nat, Book>
    var nextId: nat

    /** Every key in use was handed out before `nextId`. */
    ghost predicate Valid()
      reads this
    {
      && nextId >= 1
      && forall id :: id in books ==> 1 <= id < nextId
    }

    /** An empty table. */
    constructor ()
      ensures Valid()
      ensures books == map[] && nextId == 1
    {
      books := map[];
      nextId := 1;
    }

    /** `book_list`: every record once, in key order. */
    function Listing(): (rows: seq<Book>)
      reads this
      requires Valid()
      ensures |rows| == |books| == |IdsBelow(books, nextId)|
      ensures forall i :: 0 <= i < |rows| ==> rows[i] == books[IdsBelow(books, nextId)[i]]
      ensures forall b :: b in rows <==> exists id :: id in books && books[id] == b
    {
      Rows(books, nextId)
    }

    /** `book_detail`: the record with key `id`, or not found. */
    method Detail(id: nat) returns (r: Option<Book>)
      ensures r.Some? <==> id in books
      ensures r.Some? ==> r.value == books[id]
    {
      if id in books {
        r := Some(books[id]);
      } else {
        r := None;
      }
    }

    /**
     * `book_create`: on a submitted form that validates, the cleaned record is stored under a
     * key never used before; otherwise nothing changes.
     */
    method Create(submitted: bool, candidate: Book, currentYear: int) returns (r: Response)
      requires Valid()
      modifies this
      ensures Valid()
      ensures !submitted ==> r == FormShown && unchanged(this)
      ensures submitted && Validate(candidate, currentYear).Err? ==>
                r == Invalid(Validate(candidate, currentYear).error) && unchanged(this)
      ensures submitted && Validate(candidate, currentYear).Ok? ==>
                && r == Saved(old(nextId))
                && old(nextId) !in old(books)
                && books == old(books)[old(nextId) := Normalized(candidate)]
                && nextId == old(nextId) + 1
      ensures old(AllAdmissible(books)) ==> AllAdmissible(books)
    {
      if !submitted {
        return FormShown;
      }
      var v := Validate(candidate, currentYear);
      if v.Err? {
        return Invalid(v.error);
      }
      ValidatedWithinSchema(candidate, currentYear);
      var id := nextId;
      books := books[id := v.value];
      nextId := nextId + 1;
      r := Saved(id);
    }

    /**
     * `book_edit`: a missing key is not found; on a submitted form that validates, the record
     * under `id` is replaced by the cleaned one; otherwise nothing changes.
     */
    method Edit(id: nat, submitted: bool, candidate: Book, currentYear: int) returns (r: Response)
      requires Valid()
      modifies this
      ensures Valid()
      ensures id !in old(books) ==> r == NotFound && unchanged(this)
      ensures id in old(books) && !submitted ==> r == FormShown && unchanged(this)
      ensures id in old(books) && submitted && Validate(candidate, currentYear).Err? ==>
                r == Invalid(Validate(candidate, currentYear).error) && unchanged(this)
      ensures id in old(books) && submitted && Validate(candidate, currentYear).Ok? ==>
                && r == Saved(id)
                && books == old(books)[id := Normalized(candidate)]
                && nextId == old(nextId)
      ensures old(AllAdmissible(books)) ==> AllAdmissible(books)
    {
      if id !in books {
        return NotFound;
      }
      if !submitted {
        return FormShown;
      }
      var v := Validate(candidate, currentYear);
      if v.Err? {
        return Invalid(v.error);
      }
      ValidatedWithinSchema(candidate, currentYear);
      books := books[id := v.value];
      r := Saved(id);
    }

    /**
     * `book_delete`: a missing key is not found; a GET shows the confirmation page; a POST
     * removes that record and no other.
     */
    method Delete(id: nat, submitted: bool) returns (r: Response)
      requires Valid()
      modifies this
      ensures Valid()
      ensures id !in old(books) ==> r == NotFound && unchanged(this)
      ensures id in old(books) && !submitted ==> r == ConfirmDelete(old(books)[id]) && unchanged(this)
      ensures id in old(books) && submitted ==>
                r == Deleted && books == old(books) - {id} && nextId == old(nextId)
      ensures AllAdmissible(old(books)) ==> AllAdmissible(books)
    {
      if id !in books {
        return NotFound;
      }
      if !submitted {
        return ConfirmDelete(books[id]);
      }
      books := books - {id};
      r := Deleted;
    }
  }

  /** Storing a record under a new key adds its shelf to the inventory summary and nothing else. */
  lemma SummaryAfterCreate(books: map<nat, Book>, id: nat, b: Book)
    requires id !in books
    ensures InventorySummary(books[id := b]) == InventorySummary(books) + {b.shelves}
  {
    assert books[id := b][id].shelves == b.shelves;
    forall s | s in InventorySummary(books) ensures s in InventorySummary(books[id := b]) {
      var j :| j in books && books[j].shelves == s;
      assert books[id := b][j] == books[j];
    }
  }

  /** Deleting a record takes its shelf off the summary exactly when no other record is on it;
      every other shelf stays listed. */
  lemma SummaryAfterDelete(books: map<nat, Book>, id: nat)
    requires id in books
    ensures InventorySummary(books - {id}) ==
            InventorySummary(books)
            - (if exists j :: j in books && j != id && books[j].shelves == books[id].shelves
               then {} else {books[id].shelves})
  {
    var rest := books - {id};
    forall s | s in InventorySummary(rest) ensures s in InventorySummary(books) {
      var j :| j in rest && rest[j].shelves == s;
    }
    forall s | s in InventorySummary(books) && s != books[id].shelves ensures s in InventorySummary(rest) {
      var j :| j in books && books[j].shelves == s;
      assert j in rest;
    }
    if exists j :: j in books && j != id && books[j].shelves == books[id].shelves {
      var j :| j in books && j != id && books[j].shelves == books[id].shelves;
      assert j in rest;
    }
  }

  /** A record saved through the form is found by a search on its own (non-blank, stripped)
      title. */
  lemma SavedRecordSearchable(books: map<nat, Book>, id: nat, c: Book, currentYear: int)
    requires Validate(c, currentYear).Ok?
    ensures id in Search(books[id := Normalized(c)], Normalized(c).title)
  {
    var t := Normalized(c).title;
    assert FieldAcceptable(c, currentYear, Title);
    StripIdempotent(c.title);
    assert LowerAll(t) <= LowerAll(t)[0..];
  }

  /** Create, then look the record up, then delete it: the lookup finds the cleaned record and
      afterwards the key is not found. */
  method CreateDetailDelete(store: BookStore, candidate: Book, currentYear: int)
    returns (found: Option<Book>, afterDelete: Option<Book>)
    requires store.Valid()
    requires Validate(candidate, currentYear).Ok?
    modifies store
    ensures found == Some(Normalized(candidate))
    ensures afterDelete == None
  {
    var created := store.Create(true, candidate, currentYear);
    var id := created.id;
    found := store.Detail(id);
    var deleted := store.Delete(id, true);
    afterDelete := store.Detail(id);
  }
}
