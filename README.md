# Book catalog form and truncate pipe — a Dafny model

This project models the two pieces of logic in the book catalog front end
that are more than UI wiring.

- **The book form** (`src/app/pages/book-form/book-form.ts`). It covers:
  - the custom ISBN validator;
  - the other field rules of the form group;
  - the choice of the one error message shown under a field;
  - the field labels;
  - the component's state: the `loading`, `isEditMode` and `bookId` signals, and each control's value, errors and touched flag;
  - the steps that change that state: `ngOnInit`, `loadBook` and its callbacks, `onSubmit` and its callbacks, `onCancel`.
- **The `truncate` pipe** (`src/app/pipes/truncate.pipe.ts`). It shortens a description to a character limit and marks the cut with `...`.

Files:

- `wrappers.dfy`: `Option`, which stands for TypeScript's `T | null | undefined`.
- `book_form_rules.dfy` (module `BookFormRules`): the pure parts of the form.
  - `StripWs` is `replace(/\s/g, '')`. `IsWs` lists the characters JavaScript's `\s` matches.
  - `Isbn` is `isbnValidator`. `IsbnError` names its three messages.
  - `Rules`, `RuleErrors` and `ControlErrors` give the field rules and a control's `errors`. An `errors` value is null or a map. Validator results are merged in order, and the merge is null only when every validator returned null.
  - `FieldLabel` is `getFieldLabel`. `ErrorMessage` is `getErrorMessage`.
  - `SubmitDecision` is the branch `onSubmit` takes.
- `book_form.dfy` (module `BookFormPage`): class `BookForm`, the component's state and the methods that change it.
  - A step that would send an HTTP request returns that request instead: the id to fetch, or a `Decision` plus the body.
  - Each subscription callback is a method of its own.
  - The `Valid()` invariant says two things. There are exactly six controls. Each control's errors are either what its validators give for its value, or null after they were cleared.
- `truncate_pipe.dfy` (module `TruncatePipe`): `Transform` and lemmas about it.

Observations from the model:

- The ISBN rule checks format only. A value is accepted iff one of these holds:
  - it is empty;
  - it has no dash and, with all whitespace deleted, it is 13 ASCII digits starting with `978` or `979`.
- Whitespace inserted anywhere in a non-empty dash-free value never changes the verdict.
- `getErrorMessage` looks up the key `maxLength` (book-form.ts:153). The model's max-length rule reports under that same key.
- After a successful create, the form's values are all null and every control's errors have been cleared to null. `OnCreateSucceeded` proves that the form is then not invalid. `ResubmitAfterCreate` proves the consequence: with the form's validity read as "some control holds errors", an immediate second submit passes the gate and sends a create whose every value is null, although the title's own rules reject a null title. No value change is needed in between.
- Conversely, a blocked submit always has a control whose rules fail on its current value (`InvalidMeansSomeRuleFails`).

## Model

| member | source | states |
|---|---|---|
| `BookFormRules.IsWs` | src/app/pages/book-form/book-form.ts:86 | the characters `\s` matches; none of them is a dash or an ASCII digit, so deleting them neither adds nor removes either |
| `BookFormRules.StripWs` | src/app/pages/book-form/book-form.ts:86 | the result contains no whitespace character, is no longer than the input, and holds only characters of the input |
| `BookFormRules.StripWsConcat` | src/app/pages/book-form/book-form.ts:86 | deleting whitespace from a concatenation is the concatenation of the deleted parts |
| `BookFormRules.StripWsKeepsWsFree` | src/app/pages/book-form/book-form.ts:86 | a whitespace-free text is returned unchanged |
| `BookFormRules.StripWsDeletesAllWs` | src/app/pages/book-form/book-form.ts:86 | a text of whitespace only becomes empty |
| `BookFormRules.StripWsIdempotent` | src/app/pages/book-form/book-form.ts:86 | deleting whitespace twice gives the same as once |
| `BookFormRules.Isbn` | src/app/pages/book-form/book-form.ts:80-97 | null, undefined or '' yields no error; a non-empty value containing a dash yields the dash error |
| `BookFormRules.IsbnAcceptsExactly` | src/app/pages/book-form/book-form.ts:86-96 | a non-empty value passes iff it has no dash and its whitespace-free form is 13 digits starting 978 or 979 |
| `BookFormRules.IsbnDashFirst` | src/app/pages/book-form/book-form.ts:87-89 | any value containing a dash gets exactly the dash error, whatever its digits |
| `BookFormRules.IsbnLengthIff` | src/app/pages/book-form/book-form.ts:86-92 | a non-empty dash-free value gets the length error iff its whitespace-free form is not exactly 13 digits |
| `BookFormRules.IsbnPrefixIff` | src/app/pages/book-form/book-form.ts:93-95 | a dash-free value whose whitespace-free form is 13 digits gets the prefix error iff that form starts with neither 978 nor 979 |
| `BookFormRules.IsbnSeesOnlyStrippedForm` | src/app/pages/book-form/book-form.ts:86-96 | two non-empty dash-free values with the same whitespace-free form get the same verdict |
| `BookFormRules.IsbnIgnoresInsertedWs` | src/app/pages/book-form/book-form.ts:86-96 | inserting whitespace anywhere into a non-empty dash-free value leaves the verdict unchanged |
| `BookFormRules.IsbnAcceptsPaddedDigits` | src/app/pages/book-form/book-form.ts:86-96 | 13 digits starting 978 or 979, with whitespace before and after, pass |
| `BookFormRules.IsbnAcceptsOrwell` | src/app/pages/book-form/book-form.ts:80-97 | the ISBN 9780451524935 passes |
| `BookFormRules.Rules` | src/app/pages/book-form/book-form.ts:38-45 | each control's validators as `fb.group` declares them: `Validators.required` first on every control but the description, and none on the description |
| `BookFormRules.RuleErrors` | src/app/pages/book-form/book-form.ts:38-45 | every error a single validator reports carries a truthy (non-empty) value |
| `BookFormRules.Merge` | src/app/pages/book-form/book-form.ts:38-45 | merged validator results are null iff both are null, and stay truthy |
| `BookFormRules.MergeErrors` | src/app/pages/book-form/book-form.ts:38-45 | a control's errors are null iff every one of its validators returns null |
| `BookFormRules.MergeTwo` | src/app/pages/book-form/book-form.ts:39-43 | a two-validator control's errors are its two validators' results merged in order |
| `BookFormRules.ControlErrors` | src/app/pages/book-form/book-form.ts:38-45 | a control's errors are null iff every validator attached to it returns null, and every error they report is truthy |
| `BookFormRules.ControlValidIff` | src/app/pages/book-form/book-form.ts:38-45 | a control has no errors iff: required fields are non-empty; title/author are at most 255 long, genre at most 100, description at most 2000; a non-empty year is 4 digits; the ISBN passes its rule |
| `BookFormRules.FieldLabel` | src/app/pages/book-form/book-form.ts:165-175 | the name of each of the six controls maps to that control's label; any other name is returned unchanged |
| `BookFormRules.FieldLabelIdentityIff` | src/app/pages/book-form/book-form.ts:165-175 | a name comes back unchanged iff it is not one of the six controls |
| `BookFormRules.ErrorMessage` | src/app/pages/book-form/book-form.ts:144-148 | a non-empty message needs a control that exists, has errors and is touched |
| `BookFormRules.FirstTruthy` | src/app/pages/book-form/book-form.ts:150-162 | the first key of a list whose error is truthy, with every earlier key falsy; none iff no key is truthy |
| `BookFormRules.ErrorMessageByPrecedence` | src/app/pages/book-form/book-form.ts:144-163 | a touched control with errors shows the message of the first truthy key in the order required, maxLength, pattern, isbn, and '' if none is truthy |
| `BookFormRules.RequiredMessage` | src/app/pages/book-form/book-form.ts:150-152 | an empty required field shows "<Label> is required" |
| `BookFormRules.YearMessage` | src/app/pages/book-form/book-form.ts:156-158 | a non-empty year that is not 4 digits shows "Publication Year must be a valid 4-digit year" |
| `BookFormRules.TooLongMessage` | src/app/pages/book-form/book-form.ts:153-155 | with the max-length error reported under the key the lookup uses, a title, author, genre or description over its limit shows "<Label> is too long" |
| `BookFormRules.IsbnFieldMessage` | src/app/pages/book-form/book-form.ts:159-161 | a failing non-empty ISBN shows the validator's own message verbatim |
| `BookFormRules.SubmitDecision` | src/app/pages/book-form/book-form.ts:100-108 | the branch `onSubmit` takes: block when invalid, else update when in edit mode with a truthy id, else create; the three lemmas below state its cases |
| `BookFormRules.SubmitBlocksIffInvalid` | src/app/pages/book-form/book-form.ts:100-103 | a submission issues no request iff the form is invalid |
| `BookFormRules.SubmitUpdateIff` | src/app/pages/book-form/book-form.ts:108-109 | an update is issued iff the form is valid, in edit mode, with a non-null non-zero id, and it targets that id |
| `BookFormRules.SubmitCreateIff` | src/app/pages/book-form/book-form.ts:121-122 | a create is issued iff the form is valid and not (edit mode with a truthy id) |
| `BookFormPage.BookValues` | src/app/pages/book-form/book-form.ts:61-68 | a loaded book fills exactly the six controls |
| `BookFormPage.Validated` | src/app/pages/book-form/book-form.ts:38-45 | revalidation gives every control, and only those, its errors |
| `BookFormRules.FieldNamed` | src/app/pages/book-form/book-form.ts:38-45 | a name finds a control iff it is one of the six names the form group declares, and then the control of that name |
| `BookFormPage.ErrorsAgreeUpdate` | src/app/pages/book-form/book-form.ts:38-45 | revalidating one control after a value change keeps every control's errors either null or what its validators give |
| `BookFormPage.BookForm.Invalid` | src/app/pages/book-form/book-form.ts:100 | `bookForm.invalid`: some control holds errors |
| `BookFormPage.InvalidMeansSomeRuleFails` | src/app/pages/book-form/book-form.ts:100-103 | with every control's errors null or its validators' result, a form blocked at the `invalid` gate has a control whose validators reject its current value |
| `BookFormPage.BookForm.ControlOf` | src/app/pages/book-form/book-form.ts:145 | a control is found iff the name is one of the form's controls |
| `BookFormPage.BookForm.constructor` | src/app/pages/book-form/book-form.ts:32-46 | every control starts as '' with its validators' errors, nothing touched, not loading, not in edit mode, no id; the fresh form is invalid |
| `BookFormPage.BookForm.SetValue` | src/app/pages/book-form/book-form.ts:38-45 | a new value in one control revalidates that control only; nothing else changes |
| `BookFormPage.BookForm.MarkTouched` | src/app/pages/book-form/book-form.ts:146 | touching a control adds it to the touched controls |
| `BookFormPage.BookForm.NgOnInit` | src/app/pages/book-form/book-form.ts:48-55 | a non-empty id parameter sets edit mode and the id and starts loading that book; otherwise nothing changes and nothing is fetched |
| `BookFormPage.BookForm.LoadBook` | src/app/pages/book-form/book-form.ts:57-59 | loading starts and the book with that id is requested |
| `BookFormPage.BookForm.OnBookLoaded` | src/app/pages/book-form/book-form.ts:60-70 | the book's fields become the control values, revalidated, and loading stops |
| `BookFormPage.BookForm.OnBookLoadFailed` | src/app/pages/book-form/book-form.ts:71-76 | loading stops and the router goes to /books |
| `BookFormPage.BookForm.OnSubmit` | src/app/pages/book-form/book-form.ts:99-108 | the decision is SubmitDecision of the form's invalidity, edit mode and id; an invalid form only marks every control touched; a valid one starts loading and sends the form values |
| `BookFormPage.BookForm.OnUpdateSucceeded` | src/app/pages/book-form/book-form.ts:110-114 | loading stops and the router goes to /books |
| `BookFormPage.BookForm.OnSaveFailed` | src/app/pages/book-form/book-form.ts:115-119 | loading stops; values, errors and touched flags are kept |
| `BookFormPage.ResubmitAfterCreate` | src/app/pages/book-form/book-form.ts:99-130 | a submit right after a successful create (outside edit mode with a truthy id) sends a create whose every value is null, although the title's rules reject a null title |
| `BookFormPage.BookForm.OnCreateSucceeded` | src/app/pages/book-form/book-form.ts:123-130 | loading stops, every value is null, nothing is touched, every control's errors are null, and the form is not invalid |
| `BookFormPage.BookForm.Reset` | src/app/pages/book-form/book-form.ts:126 | every value becomes null and is revalidated, and nothing is touched |
| `BookFormPage.BookForm.ClearErrors` | src/app/pages/book-form/book-form.ts:127-129 | after the loop over the controls, every control's errors are null |
| `BookFormPage.BookForm.OnCancel` | src/app/pages/book-form/book-form.ts:140-142 | cancelling sends the router to /books |
| `BookFormPage.BookForm.GetErrorMessage` | src/app/pages/book-form/book-form.ts:144-163 | the message is ErrorMessage for the control of that name; a non-empty one needs the control to be touched and to hold errors |
| `TruncatePipe.Transform` | src/app/pipes/truncate.pipe.ts:7-11 | the output is the input when it fits, otherwise the input's first `limit` characters followed by "..."; it is never longer than `limit + 3` |
| `TruncatePipe.TransformDefault` | src/app/pipes/truncate.pipe.ts:7 | with the default limit, the output is at most 33 characters |
| `TruncatePipe.FalsyGivesEmpty` | src/app/pipes/truncate.pipe.ts:8 | null, undefined or '' gives '' |
| `TruncatePipe.ShortIsUnchanged` | src/app/pipes/truncate.pipe.ts:9 | a text no longer than the limit is returned unchanged |
| `TruncatePipe.LongIsCutWithEllipsis` | src/app/pipes/truncate.pipe.ts:10 | a longer text becomes its first `limit` characters and "...", `limit + 3` in all |
| `TruncatePipe.OutputIsPrefixPlusMarker` | src/app/pipes/truncate.pipe.ts:8-10 | the ellipsis is appended, after the input's first `limit` characters, iff the input is longer than the limit |
| `TruncatePipe.Idempotent` | src/app/pipes/truncate.pipe.ts:9-10 | truncating an already truncated text changes nothing |
| `TruncatePipe.LongDescriptionShowsEllipsis` | src/app/pages/book-list/book-list.spec.ts:181-197 | a description over 30 characters is shown as its first 30 characters and "..." |

## Left out

- The HTTP service, its base URL and the asynchronous subscriptions. A step that would send a request returns the request. Each callback is a method the caller invokes.
- Snackbar notifications and `console.error` logging. They change no state of the form.
- `Number(id)` at book-form.ts:52 is a parameter `parsed: int` of `NgOnInit`. `NaN`, fractions and infinities are not modelled.
- BookFormRules.IsWs is the JavaScript `\s` set written out for this Unicode version. String lengths count Unicode scalar values, not UTF-16 code units. Surrogate splitting by `substring` is not modelled.
- BookFormRules.FieldLabel: names inherited from `Object.prototype` (such as `constructor`) would be found by the source's object lookup. The model treats them as unknown names. `getErrorMessage` never reaches the label for such names: `bookForm.get` finds no control for them, and `ControlOf` likewise returns `None` for any name `FieldNamed` does not know.
- BookFormRules.RuleErrors: error values other than the ISBN message are the string `"true"`. Angular's detail objects (such as the required and actual length) are not modelled. The max-length key is spelled `maxLength`, as the lookup at book-form.ts:153 spells it. Angular's `Validators.maxLength` reports under `maxlength`, so in the running application that branch is never taken and a too-long field shows ''. The framework's own key spelling is not part of this model.
- BookFormRules.TooLongMessage holds only under the model's `maxLength` key choice above. With Angular's `maxlength` key the message for a too-long title, author, genre or description is '' instead.
- Angular forms machinery beyond what the component relies on is not modelled. That covers pristine/dirty state, status-change events, `emitEvent` options, disabled controls, and dotted paths in `get`. `markAllAsTouched` is modelled as marking all six controls touched.
- TruncatePipe.Transform takes `limit: nat`. `substring`'s clamping of a negative limit is not modelled.
- The list page (`book-list.ts`) is not part of this model. That includes its search debounce, which depends on timers. The confirmation dialog, the routes and the root component are not part of this model either.
