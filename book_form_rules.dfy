/**
 * The pure rules of the book form (src/app/pages/book-form/book-form.ts):
 * the ISBN validator, the other field rules, the choice of the message shown
 * under a field, the field labels, and the branch `onSubmit` takes.
 */
module BookFormRules {
  import opened Wrappers

  // ---------------------------------------------------------------------
  // Characters
  // ---------------------------------------------------------------------

  /** The characters a JavaScript regular expression's `\s` matches. */
  predicate IsWs(c: char)
    ensures IsWs(c) ==> c != '-' && !IsDigit(c)
  {
    c == '\t' || c == '\n' || c == '\U{B}' || c == '\U{C}' || c == '\r' || c == ' '
    || c == '\U{A0}' || c == '\U{1680}' || ('\U{2000}' <= c <= '\U{200A}')
    || c == '\U{2028}' || c == '\U{2029}' || c == '\U{202F}' || c == '\U{205F}'
    || c == '\U{3000}' || c == '\U{FEFF}'
  }

  /** The characters `\d` matches: ASCII digits only. */
  predicate IsDigit(c: char) {
    '0' <= c <= '9'
  }

  predicate AllWs(s: string) {
    forall i :: 0 <= i < |s| ==> IsWs(s[i])
  }

  predicate NoWs(s: string) {
    forall i :: 0 <= i < |s| ==> !IsWs(s[i])
  }

  predicate AllDigits(s: string) {
    forall i :: 0 <= i < |s| ==> IsDigit(s[i])
  }

  predicate StartsWith(s: string, prefix: string) {
    |prefix| <= |s| && s[..|prefix|] == prefix
  }

  /** A JavaScript value used as a condition: null, undefined and '' are false. */
  predicate Falsy(v: Option<string>) {
    v.None? || v.value == ""
  }

  /** `value.replace(/\s/g, '')`: the value with every whitespace character deleted. */
  function StripWs(s: string): (r: string)
    ensures NoWs(r)
    ensures |r| <= |s|
    ensures forall i :: 0 <= i < |r| ==> r[i] in s
  {
    if s == [] then []
    else if IsWs(s[0]) then StripWs(s[1..])
    else [s[0]] + StripWs(s[1..])
  }

  /** Deleting whitespace distributes over concatenation. */
  lemma {:induction false} StripWsConcat(a: string, b: string)
    ensures StripWs(a + b) == StripWs(a) + StripWs(b)
  {
    if a == [] {
      assert a + b == b;
    } else {
      assert (a + b)[1..] == a[1..] + b;
      StripWsConcat(a[1..], b);
    }
  }

  /** A text without whitespace is left as it is. */
  lemma {:induction false} StripWsKeepsWsFree(s: string)
    requires NoWs(s)
    ensures StripWs(s) == s
  {
    if s != [] {
      StripWsKeepsWsFree(s[1..]);
    }
  }

  /** A text made only of whitespace disappears. */
  lemma {:induction false} StripWsDeletesAllWs(s: string)
    requires AllWs(s)
    ensures StripWs(s) == []
  {
    if s != [] {
      StripWsDeletesAllWs(s[1..]);
    }
  }

  /** Deleting whitespace twice is the same as deleting it once. */
  lemma StripWsIdempotent(s: string)
    ensures StripWs(StripWs(s)) == StripWs(s)
  {
    StripWsKeepsWsFree(StripWs(s));
  }

  // ---------------------------------------------------------------------
  // The ISBN rule (isbnValidator)
  // ---------------------------------------------------------------------

  /** The one error `isbnValidator` can report, under the key `isbn`. */
  datatype IsbnError = Dash | Length | Prefix

  function IsbnMessage(e: IsbnError): string {
    match e
    case Dash => "ISBN must not contain dashes"
    case Length => "ISBN must be exactly 13 digits"
    case Prefix => "ISBN must start with 978 or 979"
  }

  /** `/^\d{13}$/` */
  predicate ThirteenDigits(s: string) {
    |s| == 13 && AllDigits(s)
  }

  predicate HasIsbnPrefix(s: string) {
    StartsWith(s, "978") || StartsWith(s, "979")
  }

  /**
   * `isbnValidator`: no error for an empty value; otherwise a dash in the raw
   * value, then a whitespace-free form that is not 13 digits, then a missing
   * 978/979 prefix, whichever comes first. There is no check-digit test.
   */
  function Isbn(v: Option<string>): (r: Option<IsbnError>)
    ensures Falsy(v) ==> r == None
    ensures !Falsy(v) && '-' in v.value ==> r == Some(Dash)
  {
    if Falsy(v) then None
    else
      var clean := StripWs(v.value);
      if '-' in v.value then Some(Dash)
      else if !ThirteenDigits(clean) then Some(Length)
      else if !HasIsbnPrefix(clean) then Some(Prefix)
      else None
  }

  /** The accepted values, stated without the staging of the checks. */
  predicate WellFormedIsbn(s: string) {
    '-' !in s && ThirteenDigits(StripWs(s)) && HasIsbnPrefix(StripWs(s))
  }

  /** A non-empty value passes iff it is a well-formed ISBN. */
  lemma IsbnAcceptsExactly(s: string)
    requires s != ""
    ensures Isbn(Some(s)) == None <==> WellFormedIsbn(s)
  {
  }

  /** A dash wins over every other error, whatever the digits. */
  lemma IsbnDashFirst(s: string)
    requires '-' in s
    ensures Isbn(Some(s)) == Some(Dash)
  {
  }

  lemma IsbnLengthIff(s: string)
    requires s != "" && '-' !in s
    ensures Isbn(Some(s)) == Some(Length) <==> !ThirteenDigits(StripWs(s))
  {
  }

  lemma IsbnPrefixIff(s: string)
    requires '-' !in s && ThirteenDigits(StripWs(s))
    ensures Isbn(Some(s)) == Some(Prefix) <==> !HasIsbnPrefix(StripWs(s))
  {
  }

  /** Two non-empty dash-free values with the same whitespace-free form get the same verdict. */
  lemma IsbnSeesOnlyStrippedForm(s: string, t: string)
    requires s != "" && t != "" && '-' !in s && '-' !in t
    requires StripWs(s) == StripWs(t)
    ensures Isbn(Some(s)) == Isbn(Some(t))
  {
  }

  /** Inserting whitespace anywhere in a non-empty dash-free value does not change the verdict. */
  lemma {:induction false} IsbnIgnoresInsertedWs(a: string, ws: string, b: string)
    requires a + b != "" && '-' !in a + b
    requires AllWs(ws)
    ensures Isbn(Some(a + ws + b)) == Isbn(Some(a + b))
  {
    StripWsConcat(a + ws, b);
    StripWsConcat(a, ws);
    StripWsConcat(a, b);
    StripWsDeletesAllWs(ws);
    assert StripWs(a + ws + b) == StripWs(a + b);
    WsHasNoDash(ws);
  }

  lemma WsHasNoDash(s: string)
    requires AllWs(s)
    ensures '-' !in s
  {
    assert forall i :: 0 <= i < |s| ==> s[i] != '-';
  }

  lemma DigitsHaveNoWs(s: string)
    requires AllDigits(s)
    ensures NoWs(s) && '-' !in s
  {
    assert forall i :: 0 <= i < |s| ==> s[i] != '-';
  }

  /** Thirteen digits starting 978 or 979, with whitespace around them, pass. */
  lemma {:induction false} IsbnAcceptsPaddedDigits(lead: string, digits: string, trail: string)
    requires AllWs(lead) && AllWs(trail)
    requires ThirteenDigits(digits) && HasIsbnPrefix(digits)
    ensures Isbn(Some(lead + digits + trail)) == None
  {
    StripWsConcat(lead + digits, trail);
    StripWsConcat(lead, digits);
    StripWsDeletesAllWs(lead);
    StripWsDeletesAllWs(trail);
    DigitsHaveNoWs(digits);
    StripWsKeepsWsFree(digits);
    assert StripWs(lead + digits + trail) == digits;
    WsHasNoDash(lead);
    WsHasNoDash(trail);
  }

  /** 9780451524935, the ISBN of the sample book in src/app/services/book.service.spec.ts:26 and src/app/pages/book-list/book-list.spec.ts:31, passes. */
  lemma IsbnAcceptsOrwell()
    ensures Isbn(Some("9780451524935")) == None
  {
    var d := "9780451524935";
    assert ThirteenDigits(d) && HasIsbnPrefix(d);
    IsbnAcceptsPaddedDigits("", d, "");
    assert "" + d + "" == d;
  }

  // ---------------------------------------------------------------------
  // Field rules (the form group built in the constructor)
  // ---------------------------------------------------------------------

  /** The form's six controls. */
  datatype Field = TitleField | AuthorField | YearField | IsbnField | GenreField | DescriptionField

  /** The controls in the order they are declared, which is the order `Object.keys` lists them in. */
  const Fields: seq<Field> := [TitleField, AuthorField, YearField, IsbnField, GenreField, DescriptionField]

  const AllFields: set<Field> := set f | f in Fields

  lemma FieldsListsAllFields()
    ensures forall f :: f in Fields
    ensures forall f :: f in AllFields
  {
    forall f ensures f in Fields && f in AllFields {
      match f
      case TitleField => assert Fields[0] == f;
      case AuthorField => assert Fields[1] == f;
      case YearField => assert Fields[2] == f;
      case IsbnField => assert Fields[3] == f;
      case GenreField => assert Fields[4] == f;
      case DescriptionField => assert Fields[5] == f;
    }
  }

  /** The name the form group gives each control. */
  function FieldName(f: Field): string {
    match f
    case TitleField => "title"
    case AuthorField => "author"
    case YearField => "publicationYear"
    case IsbnField => "isbn"
    case GenreField => "genre"
    case DescriptionField => "description"
  }

  /** The control a name stands for in `bookForm.get(name)`, if any. */
  function FieldNamed(name: string): (r: Option<Field>)
    ensures r.Some? ==> FieldName(r.value) == name
    ensures r.None? ==> forall f :: FieldName(f) != name
  {
    match name
    case "title" => Some(TitleField)
    case "author" => Some(AuthorField)
    case "publicationYear" => Some(YearField)
    case "isbn" => Some(IsbnField)
    case "genre" => Some(GenreField)
    case "description" => Some(DescriptionField)
    case _ => None
  }

  /** One validator attached to a control. */
  datatype Rule = Required | MaxLength(max: nat) | FourDigitYear | IsbnFormat

  /** The validators `fb.group` attaches to each control: `Validators.required` first, on every control but the description. */
  function Rules(field: Field): (rs: seq<Rule>)
    ensures |rs| >= 1
    ensures Required in rs <==> field != DescriptionField
    ensures field != DescriptionField ==> rs[0] == Required && |rs| == 2
  {
    match field
    case TitleField => [Required, MaxLength(255)]
    case AuthorField => [Required, MaxLength(255)]
    case YearField => [Required, FourDigitYear]
    case IsbnField => [Required, IsbnFormat]
    case GenreField => [Required, MaxLength(100)]
    case DescriptionField => [MaxLength(2000)]
  }

  /** `/^\d{4}$/` */
  predicate FourDigits(s: string) {
    |s| == 4 && AllDigits(s)
  }

  /** The value a truthy flag such as `required: true` carries. */
  const Flag: string := "true"

  /**
   * The keys of a control's error map: the four the messages look up, spelled
   * `required`, `maxLength`, `pattern` and `isbn`, and any other key.
   */
  datatype ErrorKey = RequiredKey | MaxLengthKey | PatternKey | IsbnKey | OtherKey(name: string)

  type Errors = map<ErrorKey, string>

  predicate TruthyValues(e: Option<Errors>) {
    e.Some? ==> forall k :: k in e.value ==> e.value[k] != ""
  }

  /**
   * The errors one validator reports for a value: null, or a map of its keys.
   * Length and pattern rules leave empty values to `Required`.
   */
  function RuleErrors(rule: Rule, v: Option<string>): (e: Option<Errors>)
    ensures TruthyValues(e)
  {
    match rule
    case Required => if Falsy(v) then Some(map[RequiredKey := Flag]) else None
    case MaxLength(max) =>
      if v.Some? && |v.value| > max then Some(map[MaxLengthKey := Flag]) else None
    case FourDigitYear =>
      if !Falsy(v) && !FourDigits(v.value) then Some(map[PatternKey := Flag]) else None
    case IsbnFormat =>
      match Isbn(v)
      case None => None
      case Some(err) => Some(map[IsbnKey := IsbnMessage(err)])
  }

  /** Two validators' results merged: null only if both are null; on a shared key the second wins. */
  function Merge(a: Option<Errors>, b: Option<Errors>): (e: Option<Errors>)
    ensures e.None? <==> a.None? && b.None?
    ensures TruthyValues(a) && TruthyValues(b) ==> TruthyValues(e)
  {
    match (a, b)
    case (None, _) => b
    case (_, None) => a
    case (Some(x), Some(y)) => Some(x + y)
  }

  /** A control's `errors`: its validators' results merged in order. */
  function MergeErrors(rules: seq<Rule>, v: Option<string>): (e: Option<Errors>)
    ensures TruthyValues(e)
    ensures e.None? <==> forall i :: 0 <= i < |rules| ==> RuleErrors(rules[i], v).None?
  {
    if rules == [] then None else Merge(RuleErrors(rules[0], v), MergeErrors(rules[1..], v))
  }

  /** The errors of a control with two validators. */
  lemma MergeTwo(first: Rule, second: Rule, v: Option<string>)
    ensures MergeErrors([first, second], v) == Merge(RuleErrors(first, v), RuleErrors(second, v))
  {
  }

  /** A control's `errors`: null when every validator of the field passes. */
  function ControlErrors(field: Field, v: Option<string>): (e: Option<Errors>)
    ensures e.None? <==> forall r :: r in Rules(field) ==> RuleErrors(r, v).None?
    ensures TruthyValues(e)
  {
    MergeErrors(Rules(field), v)
  }

  // ---------------------------------------------------------------------
  // Labels and messages (getFieldLabel, getErrorMessage)
  // ---------------------------------------------------------------------

  /** The entry of `getFieldLabel`'s `labels` object for each control. */
  function Label(f: Field): string {
    match f
    case TitleField => "Title"
    case AuthorField => "Author"
    case YearField => "Publication Year"
    case IsbnField => "ISBN"
    case GenreField => "Genre"
    case DescriptionField => "Description"
  }

  /** `labels[fieldName] || fieldName` */
  function FieldLabel(fieldName: string): (r: string)
    ensures FieldNamed(fieldName).Some? ==> r == Label(FieldNamed(fieldName).value)
    ensures FieldNamed(fieldName).None? ==> r == fieldName
  {
    match FieldNamed(fieldName)
    case Some(f) => if Label(f) != "" then Label(f) else fieldName
    case None => fieldName
  }

  /** A name comes back unchanged exactly when it is not one of the six controls. */
  lemma FieldLabelIdentityIff(fieldName: string)
    ensures FieldLabel(fieldName) == fieldName <==> FieldNamed(fieldName).None?
  {
  }

  /** What the component knows of a control: its `errors` and whether it was touched. */
  datatype Control = Control(errors: Option<Errors>, touched: bool)

  /** `control.errors[key]` used as a condition. */
  predicate Truthy(e: Errors, key: ErrorKey) {
    key in e && e[key] != ""
  }

  /** `getErrorMessage(fieldName)` for the control `bookForm.get(fieldName)` returned. */
  function ErrorMessage(control: Option<Control>, fieldName: string): (r: string)
    ensures r != "" ==> control.Some? && control.value.touched && control.value.errors.Some?
  {
    if control.None? || control.value.errors.None? || !control.value.touched then ""
    else
      var e := control.value.errors.value;
      if Truthy(e, RequiredKey) then FieldLabel(fieldName) + " is required"
      else if Truthy(e, MaxLengthKey) then FieldLabel(fieldName) + " is too long"
      else if Truthy(e, PatternKey) then FieldLabel(fieldName) + " must be a valid 4-digit year"
      else if Truthy(e, IsbnKey) then e[IsbnKey]
      else ""
  }

  /** The error keys a message is chosen from, highest precedence first. */
  const MessageKeys: seq<ErrorKey> := [RequiredKey, MaxLengthKey, PatternKey, IsbnKey]

  /** The first key of `keys` whose error is truthy. */
  function FirstTruthy(e: Errors, keys: seq<ErrorKey>): (k: Option<nat>)
    ensures k.None? <==> forall i :: 0 <= i < |keys| ==> !Truthy(e, keys[i])
    ensures k.Some? ==> (k.value < |keys| && Truthy(e, keys[k.value])
      && forall j :: 0 <= j < k.value ==> !Truthy(e, keys[j]))
  {
    if keys == [] then None
    else if Truthy(e, keys[0]) then Some(0)
    else match FirstTruthy(e, keys[1..])
      case None => None
      case Some(i) => Some(i + 1)
  }

  /** The message for one error key. */
  function KeyMessage(key: ErrorKey, fieldName: string, e: Errors): string {
    match key
    case RequiredKey => FieldLabel(fieldName) + " is required"
    case MaxLengthKey => FieldLabel(fieldName) + " is too long"
    case PatternKey => FieldLabel(fieldName) + " must be a valid 4-digit year"
    case IsbnKey => if key in e then e[key] else ""
    case OtherKey(_) => ""
  }

  /** A touched control with errors shows the message of its highest-precedence truthy error. */
  lemma ErrorMessageByPrecedence(e: Errors, fieldName: string)
    ensures ErrorMessage(Some(Control(Some(e), true)), fieldName) ==
      match FirstTruthy(e, MessageKeys)
      case None => ""
      case Some(i) => KeyMessage(MessageKeys[i], fieldName, e)
  {
    var k := FirstTruthy(e, MessageKeys);
    if k.Some? {
      assert k.value < 4;
      if k.value >= 1 { assert !Truthy(e, MessageKeys[0]); }
      if k.value >= 2 { assert !Truthy(e, MessageKeys[1]); }
      if k.value >= 3 { assert !Truthy(e, MessageKeys[2]); }
    } else {
      assert !Truthy(e, MessageKeys[0]) && !Truthy(e, MessageKeys[1]);
      assert !Truthy(e, MessageKeys[2]) && !Truthy(e, MessageKeys[3]);
    }
  }

  /** Empty required fields show "<Label> is required", whatever else is wrong. */
  lemma RequiredMessage(field: Field, v: Option<string>)
    requires field != DescriptionField
    requires Falsy(v)
    ensures ErrorMessage(Some(Control(ControlErrors(field, v), true)), FieldName(field))
      == FieldLabel(FieldName(field)) + " is required"
  {
  }

  /** A non-empty year that is not four digits shows the year message. */
  lemma YearMessage(v: string)
    requires v != "" && !FourDigits(v)
    ensures ErrorMessage(Some(Control(ControlErrors(YearField, Some(v)), true)), "publicationYear")
      == "Publication Year" + " must be a valid 4-digit year"
  {
    var e := map[PatternKey := Flag];
    assert ControlErrors(YearField, Some(v)) == Some(e) by {
      MergeTwo(Required, FourDigitYear, Some(v));
    }
    assert FieldLabel("publicationYear") == "Publication Year";
    assert !Truthy(e, RequiredKey) && !Truthy(e, MaxLengthKey) && Truthy(e, PatternKey);
  }

  /** A too-long title, author, genre or description shows "<Label> is too long". */
  lemma TooLongMessage(field: Field, v: string, max: nat)
    requires (field == TitleField && max == 255) || (field == AuthorField && max == 255)
      || (field == GenreField && max == 100) || (field == DescriptionField && max == 2000)
    requires |v| > max
    ensures ErrorMessage(Some(Control(ControlErrors(field, Some(v)), true)), FieldName(field))
      == FieldLabel(FieldName(field)) + " is too long"
  {
    if field == DescriptionField {
      assert [MaxLength(2000)][1..] == [];
    } else {
      MergeTwo(Required, MaxLength(max), Some(v));
    }
  }

  /** A non-empty ISBN shows the validator's own message verbatim. */
  lemma IsbnFieldMessage(v: string, err: IsbnError)
    requires Isbn(Some(v)) == Some(err)
    ensures ErrorMessage(Some(Control(ControlErrors(IsbnField, Some(v)), true)), "isbn") == IsbnMessage(err)
  {
    MergeTwo(Required, IsbnFormat, Some(v));
  }

  /** A value passes all of a field's rules iff the control's errors are null. */
  lemma ControlValidIff(field: Field, v: Option<string>)
    ensures ControlErrors(field, v) == None <==>
      (field != DescriptionField ==> !Falsy(v))
      && ((field == TitleField || field == AuthorField) && v.Some? ==> |v.value| <= 255)
      && (field == GenreField && v.Some? ==> |v.value| <= 100)
      && (field == DescriptionField && v.Some? ==> |v.value| <= 2000)
      && (field == YearField && !Falsy(v) ==> FourDigits(v.value))
      && (field == IsbnField ==> Isbn(v) == None)
  {
    if field == DescriptionField {
      assert [MaxLength(2000)][1..] == [];
    } else {
      MergeTwo(Rules(field)[0], Rules(field)[1], v);
    }
  }

  // ---------------------------------------------------------------------
  // The branch onSubmit takes
  // ---------------------------------------------------------------------

  /** What a submission does: nothing, an update of a book, or a create. */
  datatype Decision = Block | Update(id: int) | Create

  /** `this.bookId()` used as a condition: null and 0 are false. */
  predicate IdTruthy(bookId: Option<int>) {
    bookId.Some? && bookId.value != 0
  }

  /** The branch `onSubmit` takes on the form's `invalid` flag, `isEditMode()` and `bookId()`. */
  function SubmitDecision(invalid: bool, isEditMode: bool, bookId: Option<int>): (d: Decision) {
    if invalid then Block
    else if isEditMode && IdTruthy(bookId) then Update(bookId.value)
    else Create
  }

  /** An invalid form issues neither request; a valid one issues exactly one. */
  lemma SubmitBlocksIffInvalid(invalid: bool, isEditMode: bool, bookId: Option<int>)
    ensures SubmitDecision(invalid, isEditMode, bookId) == Block <==> invalid
  {
  }

  /** An update goes out only in edit mode with a non-null, non-zero id, and to that id. */
  lemma SubmitUpdateIff(invalid: bool, isEditMode: bool, bookId: Option<int>)
    ensures SubmitDecision(invalid, isEditMode, bookId).Update? <==> !invalid && isEditMode && IdTruthy(bookId)
    ensures SubmitDecision(invalid, isEditMode, bookId).Update? ==> Some(SubmitDecision(invalid, isEditMode, bookId).id) == bookId
  {
  }

  /** Every other valid submission creates. */
  lemma SubmitCreateIff(invalid: bool, isEditMode: bool, bookId: Option<int>)
    ensures SubmitDecision(invalid, isEditMode, bookId) == Create <==> !invalid && !(isEditMode && IdTruthy(bookId))
  {
  }
}
