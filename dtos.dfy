/**
  Transfer objects (dto/BookDto.kt, dto/GenreDto.kt and the author DTO) and
  the constraints BookRequestDto declares on its title and price.
*/
module Dtos {
  import opened Decimals
  import opened Entities

  datatype AuthorDto = AuthorDto(id: Uuid, name: string)

  datatype GenreDto = GenreDto(id: Uuid, name: string)

  /** A book as returned: it always carries an id. */
  datatype BookDto = BookDto(id: Uuid, title: string, price: Decimal, authors: seq<AuthorDto>, genre: GenreDto)

  /** A book as sent by a client: it carries no id, so an id can only come from the store or the path. */
  datatype BookRequestDto = BookRequestDto(title: string, price: Decimal, authors: seq<AuthorDto>, genre: GenreDto)

  const TitleMinLength := 3
  const PriceIntegerDigits := 4
  const PriceFractionDigits := 2

  /** @Size(min = 3) on the title. */
  predicate TitleValid(title: string): (ok: bool)
    ensures ok ==> title != []
  {
    |title| >= TitleMinLength
  }

  /** @Digits(integer = 4, fraction = 2) on the price. */
  predicate PriceValid(price: Decimal): (ok: bool)
    ensures ok ==> Abs(price.unscaled) < Pow10(PriceIntegerDigits + PriceFractionDigits)
    ensures ok && price.unscaled != 0 ==> price.scale <= PriceFractionDigits
  {
    if HasDigits(price, PriceIntegerDigits, PriceFractionDigits) then
      DigitsMagnitude(price, PriceIntegerDigits, PriceFractionDigits);
      true
    else false
  }

  /** Both declared constraints of a request. */
  predicate RequestValid(request: BookRequestDto)
  {
    TitleValid(request.title) && PriceValid(request.price)
  }

  /** A price given in cents is valid exactly when its magnitude is below 10000.00; the sign is not checked. */
  lemma PriceValidCents(cents: int)
    ensures PriceValid(Decimal(cents, 2)) <==> -1000000 < cents < 1000000
  {
    TwoDecimalDigits(cents);
  }

  /** Only digit counts are checked: negating a price never changes its validity. */
  lemma PriceValidIgnoresSign(price: Decimal)
    ensures PriceValid(Decimal(-price.unscaled, price.scale)) == PriceValid(price)
  {
    HasDigitsIgnoresSign(price, PriceIntegerDigits, PriceFractionDigits);
  }

  /** Concrete prices: 29.99, 9999.99 and -10.00 pass; 10000.00 and 1.005 do not. */
  lemma PriceExamples()
    ensures PriceValid(Decimal(2999, 2)) && PriceValid(Decimal(999999, 2)) && PriceValid(Decimal(-1000, 2))
    ensures !PriceValid(Decimal(1000000, 2)) && !PriceValid(Decimal(1005, 3))
  {
    PriceValidCents(2999);
    PriceValidCents(999999);
    PriceValidCents(-1000);
    PriceValidCents(1000000);
  }

  /**
    The representation is checked, not only the value: 29.990 and 0E+10 are
    refused though they equal 29.99 and 0, which pass.
  */
  lemma PriceRepresentationCounts()
    ensures PriceValid(Decimal(2999, 2)) && !PriceValid(Decimal(29990, 3))
    ensures PriceValid(Decimal(0, 2)) && !PriceValid(Decimal(0, -10))
  {
    PriceValidCents(2999);
    TrailingZeroCounts(Decimal(2999, 2));
    ZeroDigits(2);
    ZeroDigits(-10);
  }

  /** The request the repository's tests send as invalid fails the declared title check, though its price passes. */
  lemma EmptyTitleRejected(price: Decimal, genre: GenreDto)
    requires price == Decimal(-1000, 2)
    ensures PriceValid(price)
    ensures !RequestValid(BookRequestDto("", price, [], genre))
  {
    PriceExamples();
  }
}
