/**
 * `BookForm` validation. For each field Django first runs the form field's own checks
 * (required, then every validator: maximum length and no null character for text, decimal
 * digits for amounts; choice membership for the shelf) and, if they pass, the form's
 * `clean_<field>` method. A field keeps the list of its problems; the form is valid when no
 * field has one. The current year is a parameter instead of a clock read.
 */
module Forms {
  import opened Wrappers
  import opened Text
  import opened Models

  datatype Field =
    | Title | Authors | OriginalLanguage | FirstPublished | SalesMillions | Genre | Shelves
    | NumberOfBooks | Price

  const AllFields: set<Field> :=
    {Title, Authors, OriginalLanguage, FirstPublished, SalesMillions, Genre, Shelves, NumberOfBooks, Price}

  /** Why a field was rejected. */
  datatype Problem =
    | Required                       // empty after stripping
    | TooLong(maxLength: nat)        // longer than the column allows
    | NullCharacters                 // a text value holding the character U+0000
    | TooManyDigits(maxDigits: nat)  // more whole digits than the decimal column allows
    | FutureYear                     // clean_first_published
    | Negative                       // clean_sales_millions, clean_price, clean_number_of_books
    | InvalidChoice                  // not one of the shelf choices
    | NotAShelf                      // clean_shelves

  /** Each rejected field with its problems, in the order Django reports them. */
  type Errors = map<Field, seq<Problem>>

  /** The keys of `SHELVES_CHOICES`, offered by the form's shelf choice field. */
  const ShelfChoices: seq<string> := ["A", "B", "C", "D", "E", "F", "G", "H"]

  /** The list `clean_shelves` checks against. */
  const ValidShelves: set<string> := {"A", "B", "C", "D", "E", "F", "G", "H"}

  /** A one-letter shelf name from A to H. */
  predicate IsShelfLetter(s: string) {
    |s| == 1 && 'A' <= s[0] <= 'H'
  }

  /** There are eight shelf letters. */
  lemma ValidShelvesCount()
    ensures |ValidShelves| == 8
  {
  }

  lemma ShelfLetters(s: string)
    ensures s in ShelfChoices <==> IsShelfLetter(s)
    ensures s in ValidShelves <==> IsShelfLetter(s)
  {
    if IsShelfLetter(s) {
      assert s == [s[0]];
    }
  }

  /**
   * A text form field: the value is stripped; an empty one is required; otherwise every
   * validator runs and each failing one adds its problem: too long for the column, then a null
   * character in the value.
   */
  function CleanText(raw: string, maxLength: nat): (r: Result<string, seq<Problem>>)
    ensures r.Ok? <==> 0 < |Strip(raw)| <= maxLength && '\0' !in Strip(raw)
    ensures r.Ok? ==> r.value == Strip(raw)
    ensures Strip(raw) == [] ==> r == Err([Required])
    ensures |Strip(raw)| > maxLength && '\0' !in Strip(raw) ==> r == Err([TooLong(maxLength)])
    ensures 0 < |Strip(raw)| <= maxLength && '\0' in Strip(raw) ==> r == Err([NullCharacters])
    ensures |Strip(raw)| > maxLength && '\0' in Strip(raw) ==> r == Err([TooLong(maxLength), NullCharacters])
  {
    var v := Strip(raw);
    if v == [] then Err([Required])
    else
      var problems := (if |v| > maxLength then [TooLong(maxLength)] else [])
                      + (if '\0' in v then [NullCharacters] else []);
      assert [TooLong(maxLength)] + [NullCharacters] == [TooLong(maxLength), NullCharacters];
      assert [TooLong(maxLength)] + [] == [TooLong(maxLength)] && [] + [NullCharacters] == [NullCharacters];
      if problems == [] then Ok(v) else Err(problems)
  }

  /** `clean_first_published`: a year up to the current one is kept, a later one refused. */
  function CleanFirstPublished(year: int, currentYear: int): (r: Result<int, Problem>)
    ensures r.Ok? <==> year <= currentYear
    ensures r.Ok? ==> r.value == year
    ensures r.Err? ==> r.error == FutureYear
  {
    if year > currentYear then Err(FutureYear) else Ok(year)
  }

  /** `clean_sales_millions`, `clean_price` and `clean_number_of_books`: zero and positive
      values are kept, negative ones refused. */
  function CleanNonNegative(v: int): (r: Result<int, Problem>)
    ensures r.Ok? <==> 0 <= v
    ensures r.Ok? ==> r.value == v
    ensures r.Err? ==> r.error == Negative
  {
    if v < 0 then Err(Negative) else Ok(v)
  }

  /** A decimal field: its digit bound, then the non-negativity check. */
  function CleanAmount(hundredths: int, maxDigits: nat, limit: int): (r: Result<int, Problem>)
    ensures r.Ok? <==> 0 <= hundredths < limit
    ensures r.Ok? ==> r.value == hundredths
    ensures r.Err? ==> r.error == (if FitsDigits(hundredths, limit) then Negative else TooManyDigits(maxDigits))
  {
    if !FitsDigits(hundredths, limit) then Err(TooManyDigits(maxDigits))
    else CleanNonNegative(hundredths)
  }

  /** The shelf choice field: required, then one of the choice keys (no stripping); it
      accepts exactly the letters A to H and keeps them as given. */
  function ShelfChoice(raw: string): (r: Result<string, Problem>)
    ensures r.Ok? <==> IsShelfLetter(raw)
    ensures r.Ok? ==> r.value == raw
    ensures r.Err? ==> r.error == (if raw == [] then Required else InvalidChoice)
  {
    ShelfLetters(raw);
    if raw == [] then Err(Required) else if raw !in ShelfChoices then Err(InvalidChoice) else Ok(raw)
  }

  /** `clean_shelves`: exactly the letters A to H pass, unchanged. */
  function CleanShelves(s: string): (r: Result<string, Problem>)
    ensures r.Ok? <==> IsShelfLetter(s)
    ensures r.Ok? ==> r.value == s
    ensures r.Err? ==> r.error == NotAShelf
  {
    ShelfLetters(s);
    if s !in ValidShelves then Err(NotAShelf) else Ok(s)
  }

  function CleanShelvesField(raw: string): Result<string, Problem> {
    match ShelfChoice(raw)
    case Err(p) => Err(p)
    case Ok(v) => CleanShelves(v)
  }

  function ProblemsOf<T>(r: Result<T, Problem>): seq<Problem> {
    if r.Err? then [r.error] else []
  }

  function ProblemsOfText(r: Result<string, seq<Problem>>): seq<Problem> {
    if r.Err? then r.error else []
  }

  /** The problems of field `f` of candidate `c`, empty when it passes. */
  function FieldProblems(c: Book, currentYear: int, f: Field): seq<Problem> {
    match f
    case Title => ProblemsOfText(CleanText(c.title, TitleMaxLength))
    case Authors => ProblemsOfText(CleanText(c.authors, AuthorsMaxLength))
    case OriginalLanguage => ProblemsOfText(CleanText(c.originalLanguage, OriginalLanguageMaxLength))
    case FirstPublished => ProblemsOf(CleanFirstPublished(c.firstPublished, currentYear))
    case SalesMillions => ProblemsOf(CleanAmount(c.salesMillions, SalesMaxDigits, SalesLimit))
    case Genre => ProblemsOfText(CleanText(c.genre, GenreMaxLength))
    case Shelves => ProblemsOf(CleanShelvesField(c.shelves))
    case NumberOfBooks => ProblemsOf(CleanNonNegative(c.numberOfBooks))
    case Price => ProblemsOf(CleanAmount(c.price, PriceMaxDigits, PriceLimit))
  }

  /** The form's error map: every field with a problem, mapped to its problems. */
  function FieldErrors(c: Book, currentYear: int): Errors {
    map f | f in AllFields && FieldProblems(c, currentYear, f) != [] :: FieldProblems(c, currentYear, f)
  }

  /** Reference statement of what each field must be like, independently of the order in
      which Django runs the checks. */
  predicate FieldAcceptable(c: Book, currentYear: int, f: Field) {
    match f
    case Title => 0 < |Strip(c.title)| <= TitleMaxLength && '\0' !in Strip(c.title)
    case Authors => 0 < |Strip(c.authors)| <= AuthorsMaxLength && '\0' !in Strip(c.authors)
    case OriginalLanguage =>
      0 < |Strip(c.originalLanguage)| <= OriginalLanguageMaxLength && '\0' !in Strip(c.originalLanguage)
    case FirstPublished => c.firstPublished <= currentYear
    case SalesMillions => 0 <= c.salesMillions < SalesLimit
    case Genre => 0 < |Strip(c.genre)| <= GenreMaxLength && '\0' !in Strip(c.genre)
    case Shelves => c.shelves in ValidShelves
    case NumberOfBooks => 0 <= c.numberOfBooks
    case Price => 0 <= c.price < PriceLimit
  }

  predicate Acceptable(c: Book, currentYear: int) {
    forall f: Field :: FieldAcceptable(c, currentYear, f)
  }

  /** Every check except the year's, written out. */
  predicate Admissible(c: Book) {
    && 0 < |Strip(c.title)| <= TitleMaxLength && '\0' !in Strip(c.title)
    && 0 < |Strip(c.authors)| <= AuthorsMaxLength && '\0' !in Strip(c.authors)
    && 0 < |Strip(c.originalLanguage)| <= OriginalLanguageMaxLength && '\0' !in Strip(c.originalLanguage)
    && 0 < |Strip(c.genre)| <= GenreMaxLength && '\0' !in Strip(c.genre)
    && 0 <= c.salesMillions < SalesLimit
    && c.shelves in ValidShelves
    && 0 <= c.numberOfBooks
    && 0 <= c.price < PriceLimit
  }

  lemma AcceptableIff(c: Book, currentYear: int)
    ensures Acceptable(c, currentYear) <==> Admissible(c) && c.firstPublished <= currentYear
  {
    if Admissible(c) && c.firstPublished <= currentYear {
      forall f: Field ensures FieldAcceptable(c, currentYear, f) { }
    }
    if Acceptable(c, currentYear) {
      assert FieldAcceptable(c, currentYear, Title) && FieldAcceptable(c, currentYear, Authors);
      assert FieldAcceptable(c, currentYear, OriginalLanguage) && FieldAcceptable(c, currentYear, Genre);
      assert FieldAcceptable(c, currentYear, SalesMillions) && FieldAcceptable(c, currentYear, Shelves);
      assert FieldAcceptable(c, currentYear, NumberOfBooks) && FieldAcceptable(c, currentYear, Price);
      assert FieldAcceptable(c, currentYear, FirstPublished);
    }
  }

  /** Each field's checks, in Django's order, reject exactly what its reference rule forbids. */
  lemma FieldCheckCorrect(c: Book, currentYear: int, f: Field)
    ensures FieldProblems(c, currentYear, f) == [] <==> FieldAcceptable(c, currentYear, f)
  {
  }

  lemma InFieldErrors(c: Book, currentYear: int, f: Field)
    ensures f in FieldErrors(c, currentYear) <==> FieldProblems(c, currentYear, f) != []
    ensures f in FieldErrors(c, currentYear) ==>
              FieldErrors(c, currentYear)[f] == FieldProblems(c, currentYear, f)
  {
    assert f in AllFields;
  }

  /** The error map names exactly the fields that break their rule. */
  lemma FieldErrorsExact(c: Book, currentYear: int, f: Field)
    ensures f in FieldErrors(c, currentYear) <==> !FieldAcceptable(c, currentYear, f)
  {
    InFieldErrors(c, currentYear, f);
    FieldCheckCorrect(c, currentYear, f);
  }

  /** The record as the form saves it: text fields stripped, everything else unchanged. */
  function Normalized(c: Book): Book {
    c.(title := Strip(c.title), authors := Strip(c.authors),
       originalLanguage := Strip(c.originalLanguage), genre := Strip(c.genre))
  }

  /** An empty error map means that no field has a problem. */
  lemma NoErrorsNoProblems(c: Book, currentYear: int)
    requires FieldErrors(c, currentYear) == map[]
    ensures forall f: Field :: FieldProblems(c, currentYear, f) == []
  {
    forall f: Field ensures FieldProblems(c, currentYear, f) == [] {
      InFieldErrors(c, currentYear, f);
    }
  }

  /** When no field has a problem, every field's checks pass. */
  lemma NoProblemsAllPass(c: Book, currentYear: int)
    requires forall f: Field :: FieldProblems(c, currentYear, f) == []
    ensures && CleanText(c.title, TitleMaxLength).Ok?
            && CleanText(c.authors, AuthorsMaxLength).Ok?
            && CleanText(c.originalLanguage, OriginalLanguageMaxLength).Ok?
            && CleanText(c.genre, GenreMaxLength).Ok?
            && CleanFirstPublished(c.firstPublished, currentYear).Ok?
            && CleanAmount(c.salesMillions, SalesMaxDigits, SalesLimit).Ok?
            && CleanShelvesField(c.shelves).Ok?
            && CleanNonNegative(c.numberOfBooks).Ok?
            && CleanAmount(c.price, PriceMaxDigits, PriceLimit).Ok?
  {
    assert FieldProblems(c, currentYear, Title) == [] && FieldProblems(c, currentYear, Authors) == [];
    assert FieldProblems(c, currentYear, OriginalLanguage) == [] && FieldProblems(c, currentYear, Genre) == [];
    assert FieldProblems(c, currentYear, FirstPublished) == [] && FieldProblems(c, currentYear, Shelves) == [];
    assert FieldProblems(c, currentYear, SalesMillions) == [] && FieldProblems(c, currentYear, Price) == [];
    assert FieldProblems(c, currentYear, NumberOfBooks) == [];
  }

  /** The form's `cleaned_data` once every field has passed. */
  function CleanedData(c: Book, currentYear: int): Book
    requires FieldErrors(c, currentYear) == map[]
  {
    NoErrorsNoProblems(c, currentYear);
    NoProblemsAllPass(c, currentYear);
    Book(
      CleanText(c.title, TitleMaxLength).value,
      CleanText(c.authors, AuthorsMaxLength).value,
      CleanText(c.originalLanguage, OriginalLanguageMaxLength).value,
      CleanFirstPublished(c.firstPublished, currentYear).value,
      CleanAmount(c.salesMillions, SalesMaxDigits, SalesLimit).value,
      CleanText(c.genre, GenreMaxLength).value,
      CleanShelvesField(c.shelves).value,
      CleanNonNegative(c.numberOfBooks).value,
      CleanAmount(c.price, PriceMaxDigits, PriceLimit).value)
  }

  lemma CleanedDataNormalized(c: Book, currentYear: int)
    requires FieldErrors(c, currentYear) == map[]
    ensures CleanedData(c, currentYear) == Normalized(c)
  {
    NoErrorsNoProblems(c, currentYear);
    NoProblemsAllPass(c, currentYear);
  }

  /**
   * `form.is_valid()` followed by the cleaned data: the candidate is accepted exactly when it
   * is acceptable, and then the saved record is its normalized form; otherwise the form reports
   * a non-empty error map over the form's fields.
   */
  function Validate(c: Book, currentYear: int): (r: Result<Book, Errors>)
    ensures r.Ok? <==> Acceptable(c, currentYear)
    ensures r.Ok? ==> r.value == Normalized(c)
    ensures r.Err? ==> r.error == FieldErrors(c, currentYear) && r.error != map[]
  {
    var errors := FieldErrors(c, currentYear);
    assert errors == map[] <==> Acceptable(c, currentYear) by {
      if errors == map[] {
        forall f: Field ensures FieldAcceptable(c, currentYear, f) {
          FieldErrorsExact(c, currentYear, f);
        }
      } else {
        var f :| f in errors;
        FieldErrorsExact(c, currentYear, f);
      }
    }
    if errors == map[] then
      CleanedDataNormalized(c, currentYear);
      Ok(CleanedData(c, currentYear))
    else
      Err(errors)
  }

  /** `clean_first_published`: a year up to the current one passes unchanged, a later year is
      rejected as a future year. */
  lemma FirstPublishedRule(c: Book, currentYear: int)
    ensures FirstPublished in FieldErrors(c, currentYear) <==> c.firstPublished > currentYear
    ensures FirstPublished in FieldErrors(c, currentYear) ==>
              FieldErrors(c, currentYear)[FirstPublished] == [FutureYear]
    ensures Validate(c, currentYear).Ok? ==> Validate(c, currentYear).value.firstPublished == c.firstPublished
  {
    InFieldErrors(c, currentYear, FirstPublished);
  }

  /** The three non-negativity checks: within the column's digits a negative value is rejected
      as negative, zero and positive values pass and are kept as they are. */
  lemma NonNegativeRules(c: Book, currentYear: int)
    ensures var e := FieldErrors(c, currentYear);
      && (NumberOfBooks in e <==> c.numberOfBooks < 0)
      && (NumberOfBooks in e ==> e[NumberOfBooks] == [Negative])
      && (FitsDigits(c.salesMillions, SalesLimit) ==>
            (SalesMillions in e <==> c.salesMillions < 0) && (SalesMillions in e ==> e[SalesMillions] == [Negative]))
      && (FitsDigits(c.price, PriceLimit) ==>
            (Price in e <==> c.price < 0) && (Price in e ==> e[Price] == [Negative]))
      && (!FitsDigits(c.salesMillions, SalesLimit) ==> SalesMillions in e && e[SalesMillions] == [TooManyDigits(SalesMaxDigits)])
      && (!FitsDigits(c.price, PriceLimit) ==> Price in e && e[Price] == [TooManyDigits(PriceMaxDigits)])
    ensures var r := Validate(c, currentYear);
      r.Ok? ==> r.value.salesMillions == c.salesMillions && r.value.price == c.price
                && r.value.numberOfBooks == c.numberOfBooks
  {
    InFieldErrors(c, currentYear, NumberOfBooks);
    InFieldErrors(c, currentYear, SalesMillions);
    InFieldErrors(c, currentYear, Price);
  }

  /** The shelf passes exactly when it is one of the eight letters A to H. */
  lemma ShelvesRule(c: Book, currentYear: int)
    ensures Shelves in FieldErrors(c, currentYear) <==> c.shelves !in ValidShelves
    ensures Validate(c, currentYear).Ok? ==> Validate(c, currentYear).value.shelves == c.shelves
  {
    InFieldErrors(c, currentYear, Shelves);
  }

  /** A title holding a null character is refused even when it fits its column; one that is
      also too long is refused for both, the length first. The other text fields follow the
      same rule through `CleanText`. */
  lemma NullCharacterRule(c: Book, currentYear: int)
    ensures var t := Strip(c.title);
      t != [] && '\0' in t ==> Title in FieldErrors(c, currentYear) && NullCharacters in FieldErrors(c, currentYear)[Title]
    ensures var t := Strip(c.title);
      |t| > TitleMaxLength && '\0' in t ==> FieldErrors(c, currentYear)[Title] == [TooLong(TitleMaxLength), NullCharacters]
  {
    InFieldErrors(c, currentYear, Title);
  }

  const NullTitled := Book("A\0B", "Y", "English", 2000, 100, "Novel", "A", 2, 500)

  /** The title "A", U+0000, "B" is refused for its null character only. */
  lemma NullCharacterExample()
    ensures Title in FieldErrors(NullTitled, 2024)
    ensures FieldErrors(NullTitled, 2024)[Title] == [NullCharacters]
    ensures forall f: Field :: f != Title ==> f !in FieldErrors(NullTitled, 2024)
    ensures Validate(NullTitled, 2024).Err?
  {
    var b := NullTitled;
    StripUnspaced(b.title);
    assert b.title[1] == '\0';
    InFieldErrors(b, 2024, Title);
    NullTitledOtherFields();
    forall f: Field | f != Title ensures f !in FieldErrors(b, 2024) {
      FieldErrorsExact(b, 2024, f);
    }
  }

  lemma NullTitledOtherFields()
    ensures forall f: Field :: f != Title ==> FieldAcceptable(NullTitled, 2024, f)
  {
    var b := NullTitled;
    StripUnspaced(b.authors);
    StripUnspaced(b.originalLanguage);
    StripUnspaced(b.genre);
    ShelfLetters(b.shelves);
  }

  /** The choice field already limits the shelf to A..H, so `clean_shelves` never rejects what
      reaches it; the letters are exactly eight. */
  lemma CleanShelvesRedundant(raw: string)
    ensures ShelfChoice(raw).Ok? ==> CleanShelves(ShelfChoice(raw).value).Ok?
    ensures ShelfChoice(raw).Ok? <==> raw in ValidShelves
    ensures |ValidShelves| == 8
  {
  }

  /** Re-validating a saved record gives the same record: validation is a normalization. */
  lemma ValidateIdempotent(c: Book, currentYear: int)
    requires Validate(c, currentYear).Ok?
    ensures Validate(Validate(c, currentYear).value, currentYear) == Validate(c, currentYear)
  {
    var n := Normalized(c);
    assert Normalized(n) == n by {
      StripIdempotent(c.title);
      StripIdempotent(c.authors);
      StripIdempotent(c.originalLanguage);
      StripIdempotent(c.genre);
    }
    assert Acceptable(n, currentYear) by {
      forall f: Field ensures FieldAcceptable(n, currentYear, f) {
        assert FieldAcceptable(c, currentYear, f);
      }
    }
  }

  /** What the form saves fits the schema and stays admissible. */
  lemma ValidatedWithinSchema(c: Book, currentYear: int)
    requires Validate(c, currentYear).Ok?
    ensures WithinSchema(Validate(c, currentYear).value)
    ensures Admissible(Validate(c, currentYear).value)
  {
    ValidateIdempotent(c, currentYear);
    AcceptableIff(Validate(c, currentYear).value, currentYear);
  }

  /** The schema is looser than the form: a record can fit every column and still be refused,
      because the schema allows any shelf text of up to 50 characters. */
  lemma SchemaLooserThanForm(currentYear: int)
    ensures exists b :: WithinSchema(b) && Validate(b, currentYear).Err?
  {
    var b := Book("Dune", "Frank Herbert", "English", currentYear, 2000, "Science fiction", "Z", 3, 999);
    assert !FieldAcceptable(b, currentYear, Shelves);
    assert WithinSchema(b);
  }
}
