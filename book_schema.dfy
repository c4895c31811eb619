/**
 * Request validation for books: length bounds on the text fields and range
 * bounds on the copy counts, required on creation and optional on update.
 */
module BookSchema {
  import opened Wrappers
  import opened Validation

  predicate TitleOk(s: string) { 1 <= |s| <= 200 }

  predicate AuthorOk(s: string) { 1 <= |s| <= 100 }

  predicate IsbnOk(s: string) { 10 <= |s| <= 20 }

  predicate TotalCopiesOk(n: int) { 1 <= n <= 1000 }

  predicate AvailableCopiesOk(n: int) { 0 <= n <= 1000 }

  const DefaultTotalCopies: int := 1
  const DefaultAvailableCopies: int := 1

  /** A create request body as received; a field left out is `None`. */
  datatype BookInput = BookInput(
    title: Option<string>,
    author: Option<string>,
    isbn: Option<string>,
    description: Option<string>,
    totalCopies: Option<int>,
    availableCopies: Option<int>)

  /** A create request that passed validation, defaults filled in. */
  datatype BookCreate = BookCreate(
    title: string,
    author: string,
    isbn: string,
    description: Option<string>,
    totalCopies: int,
    availableCopies: int)

  /** What a create request must satisfy. Nothing relates the two copy counts. */
  predicate AcceptableCreate(input: BookInput) {
    && input.title.Some? && TitleOk(input.title.value)
    && input.author.Some? && AuthorOk(input.author.value)
    && input.isbn.Some? && IsbnOk(input.isbn.value)
    && (input.totalCopies.Some? ==> TotalCopiesOk(input.totalCopies.value))
    && (input.availableCopies.Some? ==> AvailableCopiesOk(input.availableCopies.value))
  }

  /** Validates a create request, reporting every bad field in declaration order. */
  function ValidateBookCreate(input: BookInput): (r: Result<BookCreate, seq<FieldError>>)
    ensures r.Success? <==> AcceptableCreate(input)
    ensures r.Success? ==>
      && r.value.title == input.title.value
      && r.value.author == input.author.value
      && r.value.isbn == input.isbn.value
      && r.value.description == input.description
      && r.value.totalCopies == input.totalCopies.GetOr(DefaultTotalCopies)
      && r.value.availableCopies == input.availableCopies.GetOr(DefaultAvailableCopies)
    ensures r.Success? ==> TotalCopiesOk(r.value.totalCopies) && AvailableCopiesOk(r.value.availableCopies)
    ensures r.Failure? ==> r.error != []
  {
    var errs :=
      FieldErrors("title", input.title, TitleOk)
      + FieldErrors("author", input.author, AuthorOk)
      + FieldErrors("isbn", input.isbn, IsbnOk)
      + OptionalFieldErrors("total_copies", input.totalCopies, TotalCopiesOk)
      + OptionalFieldErrors("available_copies", input.availableCopies, AvailableCopiesOk);
    if errs == [] then
      Success(BookCreate(
        input.title.value, input.author.value, input.isbn.value, input.description,
        input.totalCopies.GetOr(DefaultTotalCopies), input.availableCopies.GetOr(DefaultAvailableCopies)))
    else
      Failure(errs)
  }

  /**
   * An update request: `None` is a field left out. The description is
   * nullable, so a supplied description is itself an option.
   */
  datatype BookUpdate = BookUpdate(
    title: Option<string>,
    author: Option<string>,
    isbn: Option<string>,
    description: Option<Option<string>>,
    totalCopies: Option<int>,
    availableCopies: Option<int>)

  /** Every supplied field obeys the bound it has on creation. */
  predicate AcceptableUpdate(u: BookUpdate) {
    && (u.title.Some? ==> TitleOk(u.title.value))
    && (u.author.Some? ==> AuthorOk(u.author.value))
    && (u.isbn.Some? ==> IsbnOk(u.isbn.value))
    && (u.totalCopies.Some? ==> TotalCopiesOk(u.totalCopies.value))
    && (u.availableCopies.Some? ==> AvailableCopiesOk(u.availableCopies.value))
  }

  /** Validates an update request, reporting every bad supplied field in declaration order. */
  function ValidateBookUpdate(u: BookUpdate): (r: Result<BookUpdate, seq<FieldError>>)
    ensures r.Success? <==> AcceptableUpdate(u)
    ensures r.Success? ==> r.value == u
    ensures r.Failure? ==> r.error != []
  {
    var errs :=
      OptionalFieldErrors("title", u.title, TitleOk)
      + OptionalFieldErrors("author", u.author, AuthorOk)
      + OptionalFieldErrors("isbn", u.isbn, IsbnOk)
      + OptionalFieldErrors("total_copies", u.totalCopies, TotalCopiesOk)
      + OptionalFieldErrors("available_copies", u.availableCopies, AvailableCopiesOk);
    if errs == [] then Success(u) else Failure(errs)
  }

  /** An update supplying every field of a valid create request is itself valid. */
  lemma CreateBoundsCoverUpdate(input: BookInput)
    requires ValidateBookCreate(input).Success?
    ensures var c := ValidateBookCreate(input).value;
      ValidateBookUpdate(BookUpdate(Some(c.title), Some(c.author), Some(c.isbn), Some(c.description),
                                    Some(c.totalCopies), Some(c.availableCopies))).Success?
  {
  }
}
