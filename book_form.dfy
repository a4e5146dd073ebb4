/**
 * The book form component (src/app/pages/book-form/book-form.ts) as state:
 * its `loading`, `isEditMode` and `bookId` signals and, for each control, its
 * value, its `errors` and whether it was touched. HTTP requests are not sent
 * here: a step that would send one returns it, and each subscription callback
 * is a method of its own.
 */
module BookFormPage {
  import opened Wrappers
  import opened BookFormRules

  /** A book as the service returns it. */
  datatype Book = Book(
    id: Option<int>,
    title: string,
    author: string,
    publicationYear: string,
    isbn: string,
    genre: string,
    description: Option<string>)

  /** The list page, where the component navigates after an update or a failed load. */
  const BooksRoute: string := "/books"

  /** The values `patchValue` puts into the controls for a loaded book. */
  function BookValues(book: Book): (m: map<Field, Option<string>>)
    ensures m.Keys == AllFields
  {
    map[
      TitleField := Some(book.title),
      AuthorField := Some(book.author),
      YearField := Some(book.publicationYear),
      IsbnField := Some(book.isbn),
      GenreField := Some(book.genre),
      DescriptionField := book.description
    ]
  }

  /** Every control's errors computed afresh from the given values. */
  function Validated(values: map<Field, Option<string>>): (e: map<Field, Option<Errors>>)
    ensures e.Keys == values.Keys
  {
    map f | f in values :: ControlErrors(f, values[f])
  }

  /** Each control's errors are null or what its validators give for its value. */
  ghost predicate ErrorsAgree(values: map<Field, Option<string>>, errors: map<Field, Option<Errors>>) {
    forall f | f in errors && f in values :: errors[f] == None || errors[f] == ControlErrors(f, values[f])
  }

  /** A new value revalidated in its own control keeps every control's errors in agreement. */
  lemma ErrorsAgreeUpdate(values: map<Field, Option<string>>, errors: map<Field, Option<Errors>>, field: Field, v: Option<string>)
    requires ErrorsAgree(values, errors)
    ensures ErrorsAgree(values[field := v], errors[field := ControlErrors(field, v)])
  {
  }

  class BookForm {
    var values: map<Field, Option<string>>
    var errors: map<Field, Option<Errors>>
    var touched: set<Field>
    var loading: bool
    var isEditMode: bool
    var bookId: Option<int>

    /** Six controls; each one's errors are those its validators give, or were cleared to null. */
    ghost predicate Valid()
      reads this
    {
      values.Keys == AllFields && errors.Keys == AllFields && touched <= AllFields
      && ErrorsAgree(values, errors)
    }

    /** `bookForm.invalid`: some control holds errors. */
    predicate Invalid()
      reads this
    {
      exists f :: f in errors && errors[f].Some?
    }

    /** `bookForm.get(fieldName)`: null for a name that is not a control. */
    function ControlOf(fieldName: string): (c: Option<Control>)
      reads this
      ensures c.Some? <==> exists f :: f in errors && FieldName(f) == fieldName
    {
      match FieldNamed(fieldName)
      case Some(f) => if f in errors then Some(Control(errors[f], f in touched)) else None
      case None => None
    }

    /** The form as the constructor builds it: every control '' and validated, nothing loaded. */
    constructor ()
      ensures Valid()
      ensures values == map f | f in AllFields :: Some("")
      ensures errors == Validated(values)
      ensures touched == {} && !loading && !isEditMode && bookId == None
      ensures Invalid()
    {
      values := map f | f in AllFields :: Some("");
      errors := Validated(map f | f in AllFields :: Some(""));
      touched := {};
      loading := false;
      isEditMode := false;
      bookId := None;
      new;
      assert RuleErrors(Rules(TitleField)[0], Some("")).Some?;
      assert errors[TitleField].Some?;
    }

    /** A value typed into a control: its validators run again. */
    method SetValue(field: Field, v: Option<string>)
      requires Valid()
      modifies this`values, this`errors
      ensures Valid()
      ensures values == old(values)[field := v]
      ensures errors == old(errors)[field := ControlErrors(field, v)]
    {
      ErrorsAgreeUpdate(values, errors, field, v);
      values := values[field := v];
      errors := errors[field := ControlErrors(field, v)];
    }

    /** A control losing focus becomes touched. */
    method MarkTouched(field: Field)
      requires Valid()
      modifies this`touched
      ensures Valid()
      ensures touched == old(touched) + {field}
    {
      touched := touched + {field};
    }

    /**
     * `ngOnInit`: with a non-empty `id` route parameter the form enters edit
     * mode and loads that book. `parsed` is `Number(id)`.
     */
    method NgOnInit(id: Option<string>, parsed: int) returns (fetch: Option<int>)
      requires Valid()
      modifies this`isEditMode, this`bookId, this`loading
      ensures Valid()
      ensures fetch.Some? <==> !Falsy(id)
      ensures !Falsy(id) ==> isEditMode && bookId == Some(parsed) && loading && fetch == Some(parsed)
      ensures Falsy(id) ==> isEditMode == old(isEditMode) && bookId == old(bookId) && loading == old(loading)
    {
      fetch := None;
      if id.Some? && id.value != "" {
        isEditMode := true;
        bookId := Some(parsed);
        fetch := LoadBook(parsed);
      }
    }

    /** `loadBook`: shows the spinner and requests the book with this id. */
    method LoadBook(id: int) returns (fetch: Option<int>)
      requires Valid()
      modifies this`loading
      ensures Valid()
      ensures loading && fetch == Some(id)
    {
      loading := true;
      fetch := Some(id);
    }

    /** The book arrived: its fields are patched into the controls and revalidated. */
    method OnBookLoaded(book: Book)
      requires Valid()
      modifies this`values, this`errors, this`loading
      ensures Valid()
      ensures values == BookValues(book) && errors == Validated(values)
      ensures !loading
    {
      values := BookValues(book);
      errors := Validated(values);
      loading := false;
    }

    /** The book could not be loaded: the spinner stops and the router goes back to the list. */
    method OnBookLoadFailed() returns (route: string)
      requires Valid()
      modifies this`loading
      ensures Valid()
      ensures !loading && route == BooksRoute
    {
      loading := false;
      route := BooksRoute;
    }

    /**
     * `onSubmit`: an invalid form only has all its controls marked touched;
     * a valid one starts loading and sends its values to be updated or created.
     */
    method OnSubmit() returns (d: Decision, body: map<Field, Option<string>>)
      requires Valid()
      modifies this`touched, this`loading
      ensures Valid()
      ensures d == SubmitDecision(old(Invalid()), isEditMode, bookId)
      ensures body == values
      ensures d == Block ==> touched == AllFields && loading == old(loading)
      ensures d != Block ==> touched == old(touched) && loading
    {
      body := values;
      if Invalid() {
        touched := AllFields;
        d := Block;
        return;
      }
      loading := true;
      if isEditMode && IdTruthy(bookId) {
        d := Update(bookId.value);
      } else {
        d := Create;
      }
    }

    /** The update succeeded: the spinner stops and the router goes back to the list. */
    method OnUpdateSucceeded() returns (route: string)
      requires Valid()
      modifies this`loading
      ensures Valid()
      ensures !loading && route == BooksRoute
    {
      loading := false;
      route := BooksRoute;
    }

    /** The update or the create failed: the spinner stops and the form keeps its values. */
    method OnSaveFailed()
      requires Valid()
      modifies this`loading
      ensures Valid()
      ensures !loading
    {
      loading := false;
    }

    /**
     * The create succeeded: the form is reset (every value null, nothing
     * touched) and then every control's errors are cleared to null, one
     * control at a time.
     */
    method OnCreateSucceeded()
      requires Valid()
      modifies this`values, this`errors, this`touched, this`loading
      ensures Valid()
      ensures values == map f | f in AllFields :: None
      ensures errors == map f | f in AllFields :: None
      ensures touched == {} && !loading
      ensures !Invalid()
    {
      loading := false;
      Reset();
      ClearErrors();
    }

    /** `forEach(key => setErrors(null))` over the controls: every control's errors become null. */
    method ClearErrors()
      requires Valid()
      modifies this`errors
      ensures Valid()
      ensures errors == map f | f in AllFields :: None
    {
      FieldsListsAllFields();
      var i := 0;
      while i < |Fields|
        invariant 0 <= i <= |Fields|
        invariant errors.Keys == AllFields
        invariant forall f :: f in Fields[..i] ==> f in errors && errors[f] == None
      {
        errors := errors[Fields[i] := None];
        i := i + 1;
      }
      assert Fields[..i] == Fields;
    }

    /** `bookForm.reset()`: every value null and revalidated, nothing touched. */
    method Reset()
      requires Valid()
      modifies this`values, this`errors, this`touched
      ensures Valid()
      ensures values == map f | f in AllFields :: None
      ensures errors == Validated(values)
      ensures touched == {}
    {
      values := map f | f in AllFields :: None;
      errors := Validated(values);
      touched := {};
    }

    /** `onCancel`: back to the list, leaving the form as it is. */
    method OnCancel() returns (route: string)
      ensures route == BooksRoute
    {
      route := BooksRoute;
    }

    /** `getErrorMessage(fieldName)` on the current state of the form. */
    method GetErrorMessage(fieldName: string) returns (msg: string)
      ensures msg == ErrorMessage(ControlOf(fieldName), fieldName)
      ensures msg != "" ==> exists f :: f in touched && f in errors && errors[f].Some? && FieldName(f) == fieldName
    {
      msg := ErrorMessage(ControlOf(fieldName), fieldName);
    }
  }

  /** A form blocked at the `invalid` gate always has a control whose rules fail on its value. */
  lemma InvalidMeansSomeRuleFails(form: BookForm)
    requires form.Valid() && form.Invalid()
    ensures exists f :: f in form.values && ControlErrors(f, form.values[f]).Some?
  {
    var f :| f in form.errors && form.errors[f].Some?;
    assert f in form.values && ControlErrors(f, form.values[f]).Some?;
  }

  /**
   * A second submit right after a successful create: the cleared errors let
   * it pass the gate, and it sends a create whose every value is null,
   * although the title's rules reject a null title.
   */
  method ResubmitAfterCreate(form: BookForm) returns (d: Decision, body: map<Field, Option<string>>)
    requires form.Valid()
    requires !(form.isEditMode && IdTruthy(form.bookId))
    modifies form
    ensures d == Create
    ensures body == map f | f in AllFields :: None
    ensures TitleField in body && ControlErrors(TitleField, body[TitleField]).Some?
  {
    form.OnCreateSucceeded();
    d, body := form.OnSubmit();
    FieldsListsAllFields();
    assert RuleErrors(Required, None).Some?;
  }
}
