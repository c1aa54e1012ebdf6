/**
 * The `Book` record and the bounds its database schema declares. Decimal amounts are held
 * as integer hundredths, so `12.50` is `1250`.
 */
module Models {

  const TitleMaxLength: nat := 200
  const AuthorsMaxLength: nat := 255
  const OriginalLanguageMaxLength: nat := 50
  const GenreMaxLength: nat := 100
  const ShelvesMaxLength: nat := 50

  /** `DecimalField(max_digits=10, decimal_places=2)`: at most 8 whole digits, so the amount
      in hundredths stays strictly inside +-10^10. */
  const SalesMaxDigits: nat := 10
  const SalesLimit: int := 10_000_000_000
  /** `DecimalField(max_digits=6, decimal_places=2)`: at most 9999.99. */
  const PriceMaxDigits: nat := 6
  const PriceLimit: int := 1_000_000

  /** One stocked title. The identifier is the key under which the store keeps the record. */
  datatype Book = Book(
    title: string,
    authors: string,
    originalLanguage: string,
    firstPublished: int,
    salesMillions: int,   // hundredths of a million copies
    genre: string,
    shelves: string,
    numberOfBooks: int,
    price: int)           // hundredths of the currency unit

  /** An amount in hundredths fits a two-place decimal column whose whole part stays below
      `limit` hundredths. */
  predicate FitsDigits(hundredths: int, limit: int) {
    -limit < hundredths < limit
  }

  /** The record fits its columns: the text lengths and the decimal precisions of the schema.
      The schema itself allows any shelf text of up to 50 characters. */
  predicate WithinSchema(b: Book) {
    && |b.title| <= TitleMaxLength
    && |b.authors| <= AuthorsMaxLength
    && |b.originalLanguage| <= OriginalLanguageMaxLength
    && |b.genre| <= GenreMaxLength
    && |b.shelves| <= ShelvesMaxLength
    && FitsDigits(b.salesMillions, SalesLimit)
    && FitsDigits(b.price, PriceLimit)
  }

  /** The string form of a book is its title, so for a record within the schema it is at most
      200 characters long. */
  function Str(b: Book): (r: string)
    ensures r == b.title
    ensures WithinSchema(b) ==> |r| <= TitleMaxLength
  {
    b.title
  }
}
