# Bookstore inventory: a verified Dafny model

This project models the domain logic of a small Django bookstore application. Staff create,
list, look up, edit and delete `Book` records, search them by title or author, list the shelves
in use, and view the copies on one shelf grouped by book. The model covers:

- the `Book` record and the bounds its schema declares (`books/models.py`);
- the `BookForm` validation that guards every create and edit. For each field this is Django's
  form-field checks (required; then, after stripping, maximum length and no null character;
  decimal digits; shelf choice) followed by the form's `clean_<field>` method. The error map
  gives each rejected field the list of its problems, in the order Django reports them;
- the read-only queries: search, inventory summary and shelf detail;
- the record store that the create, edit, delete, detail and list views change or read.

Amounts are integer hundredths: a price of `12.50` is `1250`. Text is a sequence of Unicode
code points. The current year, which the source reads from the clock, is a parameter.

Files, one module each:

- `wrappers.dfy` holds `Option` and `Result`.
- `seqs.dfy` holds sequences without repetitions and their cardinality.
- `text.dfy` holds Python's `str.strip()` and the ASCII case folding of SQLite's `LIKE`, on
  which Django's `icontains` lookup runs. It also holds substring search and the code-point
  order of SQLite's `BINARY` collation.
- `models.dfy` holds `Book` and its schema bounds.
- `forms.dfy` holds `BookForm` validation.
- `queries.dfy` holds `search_books`, `inventory_summary` and `shelf_detail`.
- `store.dfy` holds the `BookStore` class and the views that change it.

Two facts about the code that the views do not spell out:

- The form strips the four text fields and rejects an empty or over-long value, or one holding
  a null character.
- `shelf_detail` raises on every request (see Findings); `Queries.ShelfDetail` is the grouping
  its comment describes.

## Model

| member | source | states |
|---|---|---|
| Text.Strip | Bookstore_MGMT_SYSTEM/books/views.py:35 | the stripped value is no longer than its input and neither starts nor ends with whitespace |
| Text.StripIsSlice | Bookstore_MGMT_SYSTEM/books/views.py:35 | the stripped value is a contiguous slice of the input, and everything cut off at either end is whitespace |
| Text.StripIdempotent | Bookstore_MGMT_SYSTEM/books/views.py:35 | stripping twice gives the same value as stripping once |
| Text.StripEmptyIff | Bookstore_MGMT_SYSTEM/books/views.py:35-36 | the stripped query is empty exactly when the raw query is all whitespace |
| Text.StartsWithIgnoreCaseCorrect | Bookstore_MGMT_SYSTEM/books/views.py:37 | the recursive prefix test holds exactly when the folded needle is a prefix of the folded text |
| Text.ContainsIgnoreCaseCorrect | Bookstore_MGMT_SYSTEM/books/views.py:37 | the `icontains` test holds exactly when the folded query occurs at some position of the folded field |
| Text.LexLeTotal | Bookstore_MGMT_SYSTEM/books/views.py:177 | any two titles are comparable in the text order |
| Text.LexLeTransitive | Bookstore_MGMT_SYSTEM/books/views.py:177 | the text order is transitive |
| Models.Str | Bookstore_MGMT_SYSTEM/books/models.py:14-15 | a book's string form is its title, at most 200 characters for a record within the schema |
| Forms.ShelfLetters | Bookstore_MGMT_SYSTEM/books/views.py:95-98 | a text is one of the shelf choice keys, and one of the letters `clean_shelves` lists, exactly when it is a single letter from A to H |
| Forms.ValidShelvesCount | Bookstore_MGMT_SYSTEM/books/views.py:134 | `clean_shelves` lists eight shelf letters |
| Forms.CleanText | Bookstore_MGMT_SYSTEM/books/views.py:101-103 | a text field passes exactly when its stripped value is non-empty, fits the column and holds no null character, and then yields the stripped value; otherwise the error list is exactly `[Required]` for an empty value, `[TooLong]` or `[NullCharacters]` when one validator fails, and `[TooLong, NullCharacters]` when both do |
| Forms.CleanFirstPublished | Bookstore_MGMT_SYSTEM/books/views.py:107-112 | a year up to the current one passes unchanged; a later year is refused as a future year |
| Forms.CleanNonNegative | Bookstore_MGMT_SYSTEM/books/views.py:114-130 | zero and positive values pass unchanged; a negative one is refused as negative |
| Forms.CleanAmount | Bookstore_MGMT_SYSTEM/books/views.py:101-103 | a decimal amount passes unchanged exactly when it is non-negative and below the column's limit; too many digits are reported before a negative sign |
| Forms.ShelfChoice | Bookstore_MGMT_SYSTEM/books/views.py:105 | the choice field accepts exactly the letters A to H, unchanged; an empty value is required, any other an invalid choice |
| Forms.CleanShelves | Bookstore_MGMT_SYSTEM/books/views.py:132-137 | `clean_shelves` accepts exactly the letters A to H, unchanged, and refuses everything else |
| Forms.FieldCheckCorrect | Bookstore_MGMT_SYSTEM/books/views.py:94-137 | each field's checks, run in Django's order, reject exactly what the field's rule forbids |
| Forms.FieldErrorsExact | Bookstore_MGMT_SYSTEM/books/views.py:84 | the error map names exactly the fields that break their rule |
| Forms.AcceptableIff | Bookstore_MGMT_SYSTEM/books/views.py:107-137 | all fields pass exactly when the record is admissible and its year is not in the future |
| Forms.CleanedDataNormalized | Bookstore_MGMT_SYSTEM/books/views.py:85 | once every field passes, the cleaned data has the four text fields stripped and every other field unchanged |
| Forms.Validate | Bookstore_MGMT_SYSTEM/books/views.py:94-137 | the form is valid exactly when every field rule holds (for text: non-empty after stripping, within the column, no null character); a valid form yields the normalized record; an invalid one yields the non-empty error map |
| Forms.FirstPublishedRule | Bookstore_MGMT_SYSTEM/books/views.py:107-112 | a year up to the current one passes and is kept; a later year is rejected as a future year |
| Forms.NonNegativeRules | Bookstore_MGMT_SYSTEM/books/views.py:114-130 | within the digit bounds, sales, price and number of books are rejected exactly when negative, and zero and positive values are kept; out-of-bounds amounts are rejected for their digits |
| Forms.NullCharacterRule | Bookstore_MGMT_SYSTEM/books/views.py:101-103 | a title holding a null character is refused for it, and one that is also too long gets both problems, the length first |
| Forms.NullCharacterExample | Bookstore_MGMT_SYSTEM/books/views.py:101-103 | the title "A", U+0000, "B" is refused for its null character alone, and the form is invalid |
| Forms.ShelvesRule | Bookstore_MGMT_SYSTEM/books/views.py:132-137 | the shelf passes exactly when it is one of the letters A to H, and it is kept as given |
| Forms.CleanShelvesRedundant | Bookstore_MGMT_SYSTEM/books/views.py:95-105 | the choice field accepts exactly A to H, so `clean_shelves` never rejects what reaches it; there are eight letters |
| Forms.ValidateIdempotent | Bookstore_MGMT_SYSTEM/books/views.py:94-137 | validating a saved record again accepts it and gives the same record |
| Forms.ValidatedWithinSchema | Bookstore_MGMT_SYSTEM/books/models.py:3-12 | a record the form accepts fits every column's length and decimal precision, and stays admissible |
| Forms.SchemaLooserThanForm | Bookstore_MGMT_SYSTEM/books/models.py:10 | some record fits every column and is still refused by the form, because of its shelf |
| Queries.TitleMatches | Bookstore_MGMT_SYSTEM/books/views.py:37 | the title filter keeps, under their own ids, exactly the records whose title contains the query, ignoring case |
| Queries.AuthorsMatches | Bookstore_MGMT_SYSTEM/books/views.py:37 | the authors filter keeps, under their own ids, exactly the records whose authors contain the query, ignoring case |
| Queries.Search | Bookstore_MGMT_SYSTEM/books/views.py:35-39 | the result is a part of the store with unchanged records; a blank query finds nothing; otherwise a record is found exactly when its title or authors contain the stripped query, ignoring case |
| Queries.SearchBlankFindsNothing | Bookstore_MGMT_SYSTEM/books/views.py:38-39 | an all-whitespace query returns no record, whatever the store holds |
| Queries.SearchFindsOne | Bookstore_MGMT_SYSTEM/books/views.py:35-37 | when exactly one record matches a non-blank query, the search returns that record alone |
| Queries.SearchExample | Bookstore_MGMT_SYSTEM/books/views.py:35-37 | the query `herb` finds "Frank Herbert"'s book and not Tolkien's |
| Queries.InventorySummary | Bookstore_MGMT_SYSTEM/books/views.py:165 | a shelf value is listed exactly when some record has it, and each one once |
| Queries.InventorySummarySize | Bookstore_MGMT_SYSTEM/books/views.py:165 | no more shelves are listed than there are records |
| Queries.InventorySummaryOfValidated | Bookstore_MGMT_SYSTEM/books/views.py:165 | when every record passed the form, only letters A to H are listed, so at most eight |
| Queries.OnShelf | Bookstore_MGMT_SYSTEM/books/views.py:174 | the filter keeps each row on the shelf as often as it occurs and drops every other row |
| Queries.OnShelfMembers | Bookstore_MGMT_SYSTEM/books/views.py:174 | a record is among the filtered rows exactly when it is stored and on the shelf |
| Queries.DistinctKeys | Bookstore_MGMT_SYSTEM/books/views.py:175 | the `(title, authors)` pairs of the rows, each exactly once |
| Queries.GroupsFor | Bookstore_MGMT_SYSTEM/books/views.py:175-176 | one group per pair, whose total is the sum of that pair's copies |
| Queries.Insert | Bookstore_MGMT_SYSTEM/books/views.py:177 | insertion adds exactly the one group and its copies |
| Queries.SortByTitle | Bookstore_MGMT_SYSTEM/books/views.py:177 | ordering permutes the groups and keeps their total |
| Queries.InsertSorted | Bookstore_MGMT_SYSTEM/books/views.py:177 | inserting into a title-ordered list keeps it ordered |
| Queries.InsertKeysDistinct | Bookstore_MGMT_SYSTEM/books/views.py:177 | inserting a group with a new pair keeps the pairs distinct |
| Queries.SortByTitleProperties | Bookstore_MGMT_SYSTEM/books/views.py:177 | the ordered groups are sorted by title, and distinct pairs stay distinct |
| Queries.ShelfDetail | Bookstore_MGMT_SYSTEM/books/views.py:171-179 | the groups are ordered by title, no pair appears twice, and the count is the number of groups |
| Queries.KeyTotal | Bookstore_MGMT_SYSTEM/books/views.py:176 | with no negative counts, a group's total lies between zero and all copies of the rows |
| Queries.KeyTotalAbsent | Bookstore_MGMT_SYSTEM/books/views.py:176 | a pair no row carries totals zero |
| Queries.GroupsForAppendRow | Bookstore_MGMT_SYSTEM/books/views.py:175-176 | one more row adds its copies to the grouped total exactly when its pair is listed |
| Queries.GroupsForAppendKey | Bookstore_MGMT_SYSTEM/books/views.py:175-176 | one more listed pair adds that pair's total |
| Queries.GroupedStock | Bookstore_MGMT_SYSTEM/books/views.py:175-176 | grouping loses and invents no copies: the group totals add up to all copies of the rows |
| Queries.ShelfDetailConservation | Bookstore_MGMT_SYSTEM/books/views.py:172-177 | the shelf's group totals add up to every copy stored on that shelf |
| Queries.FromFiltered | Bookstore_MGMT_SYSTEM/books/views.py:174 | every filtered row is a stored row on the shelf |
| Queries.ToFiltered | Bookstore_MGMT_SYSTEM/books/views.py:174 | every stored row on the shelf is among the filtered rows |
| Queries.OnShelfKey | Bookstore_MGMT_SYSTEM/books/views.py:174-175 | a pair is grouped exactly when some row on the shelf carries it |
| Queries.GroupsForMember | Bookstore_MGMT_SYSTEM/books/views.py:175-176 | a group is produced exactly when its pair is listed and its total is that pair's sum |
| Queries.ShelfDetailGroups | Bookstore_MGMT_SYSTEM/books/views.py:172-177 | a group is shown exactly when some row on the shelf has its pair and its total is the sum of that pair's copies on the shelf |
| Queries.ShelfDetailCount | Bookstore_MGMT_SYSTEM/books/views.py:178-179 | the count is the number of distinct `(title, authors)` pairs on the shelf |
| Queries.ShelfDetailExample | Bookstore_MGMT_SYSTEM/books/views.py:172-179 | two rows of the same book with 2 and 3 copies on shelf A give one group of 5, counted once |
| Queries.BuiltinSumOfText | Bookstore_MGMT_SYSTEM/books/views.py:176 | Python's builtin `sum` over a text succeeds only on the empty text |
| Queries.ShelfDetailAsWritten | Bookstore_MGMT_SYSTEM/books/views.py:171-179 | as written, the view raises TypeError for every shelf and every table |
| Queries.ShelfDetailAsWrittenRaises | Bookstore_MGMT_SYSTEM/books/views.py:171-179 | on two rows of one book with 2 and 3 copies on shelf A the code as written raises, where the intended view reports one group of 5 |
| Store.IdsBelow | Bookstore_MGMT_SYSTEM/books/views.py:24 | the keys below a bound, strictly increasing, exactly those stored |
| Store.IdsBelowCount | Bookstore_MGMT_SYSTEM/books/views.py:24 | when every key is below the bound, each key is listed once |
| Store.Rows | Bookstore_MGMT_SYSTEM/books/views.py:24 | row `i` is the record under the `i`-th smallest key, so the listing has as many rows as keys, each record once per key holding it, and nothing else |
| Store.BookStore.constructor | Bookstore_MGMT_SYSTEM/books/migrations/0001_initial.py:17 | a new table is empty and its implicit auto-incremented `id` key starts at 1 |
| Store.BookStore.Listing | Bookstore_MGMT_SYSTEM/books/views.py:22-25 | `book_list` shows the record of each stored key, in key order, once per key, and nothing else |
| Store.BookStore.Detail | Bookstore_MGMT_SYSTEM/books/views.py:27-30 | the record under the key is found exactly when the key is stored; otherwise not found |
| Store.BookStore.Create | Bookstore_MGMT_SYSTEM/books/views.py:80-91 | a GET or an invalid form leaves the store unchanged, the latter with the error map; a valid form stores the cleaned record under a key never used before and advances the counter; admissibility of all records is kept |
| Store.BookStore.Edit | Bookstore_MGMT_SYSTEM/books/views.py:139-150 | a missing key is not found and changes nothing; a GET or an invalid form changes nothing; a valid form replaces only that key's record with the cleaned one; admissibility is kept |
| Store.BookStore.Delete | Bookstore_MGMT_SYSTEM/books/views.py:154-161 | a missing key is not found and changes nothing; a GET shows the record for confirmation; a POST removes that key and no other |
| Store.SummaryAfterCreate | Bookstore_MGMT_SYSTEM/books/views.py:165 | storing a record under a new key adds its shelf to the summary and nothing else |
| Store.SummaryAfterDelete | Bookstore_MGMT_SYSTEM/books/views.py:158-165 | after deleting a record the summary is the old one less that record's shelf when no other record is on it, and unchanged otherwise |
| Store.SavedRecordSearchable | Bookstore_MGMT_SYSTEM/books/views.py:35-37 | a record saved through the form is found by a search on its own title |
| Store.CreateDetailDelete | Bookstore_MGMT_SYSTEM/books/views.py:80-161 | after a valid create, detail finds the cleaned record; after deleting it, detail finds nothing |

## Left out

- Authentication (`login_required`), sign-up, login and logout views and the index page: no
  domain logic.
- Rendering, flash messages and redirects: a view's answer is reduced to a `Store.Response`.
- URL routing, the CSV import command, the migration and the `BookCreate` generic view, which
  bypasses `BookForm` and has no logic of its own.
- `books/forms.py` (`BookSearchForm`) is not part of this model; the views import it but do not
  use it.
- The clock: `timezone.now().year` is the `currentYear` parameter.
- Parsing of raw POST data: numbers arrive already parsed. A missing or unparseable number, a
  decimal with more than two fractional digits and the database range of `IntegerField` are not
  modelled.
- Case folding beyond ASCII: the database is taken to be SQLite, whose `LIKE` folds only A to Z.
  Other backends fold more characters.
- Concurrency and transactions: each request is one atomic step on the class.
- Order of `book_list` and of search results: Django promises none. The model lists in key order
  and returns search results as a map keyed by id.
- Queries.ShelfDetail: groups with equal titles come out in an order the model fixes (stable
  insertion); SQL leaves that order open, so only the order by title is promised.
- Store.BookStore.Edit: on a GET the pre-filled form is not modelled, and neither is Django
  updating the in-memory instance of a failed edit, which is never saved.

## Findings

| source | as written | input that shows it | evidently intended | confidence | as-written member | corrected member |
|---|---|---|---|---|---|---|
| Bookstore_MGMT_SYSTEM/books/views.py:176 | the `annotate` argument calls Python's builtin `sum` on the string `'number_of_books'`, which raises TypeError before any query runs; `Sum`, imported at line 168, is unused | any request to the shelf detail view, e.g. shelf `A` holding two rows of one book with 2 and 3 copies | the `Sum` aggregate: one group of that book with total 5, count 1 | not executed | Queries.ShelfDetailAsWritten, Queries.ShelfDetailAsWrittenRaises | Queries.ShelfDetail, Queries.ShelfDetailGroups, Queries.ShelfDetailConservation |
