# RSVP collection on a wedding invitation, modelled in Dafny

This project models how a guest answers an invitation page built from the
"Modern Wedding Gala" template. It covers three parts of the source:

- The `submitRsvp` server action. It checks the five form entries against
  `RsvpSchema`, as zod applies those rules and with zod's default English
  messages where the schema gives none. It then hands one row to the `rsvps`
  insert and returns one of three results: validation failed, database error,
  or thank you.
- The `RsvpForm` component. It keeps the action's last result as its state,
  raises a toast for each new message, and draws either the thank-you panel or
  the form, with the first error of each displayed field.
- The `WeddingTemplate2` page. It compacts the gallery, works out the countdown
  cells, the date and maps fallbacks of the two event cards and the
  copy-account-number guard, and keeps a one-way cover flag under which the
  form is mounted.

The zod behaviour modelled is that of zod 3.23 or a later 3.x release: its
default English messages, its plain 8-4-4-4-12 hex UUID pattern, and an enum's
`{ message }` applying to every failure of the enum, the missing value
included. The source does not pin a zod version.

Files and modules:

- `js_values.dfy` (`JsValues`): the JavaScript value operations the pages rely
  on. These are `string | undefined` as `Option<string>`, truthiness and `||`,
  `includes`, `padStart`, `String(n)` below 10^21, the UTF-16 length and `filter(Boolean)`.
- `js_number.dfy` (`JsNumber`): `Number(...)` on a form entry. This is the
  StringToNumber grammar of section 7.1.4.1.1 of ECMA-262 (white space, signs,
  `Infinity`, binary, octal and hex literals, decimal fractions and exponents),
  computed on exact reals.
- `actions.dfy` (`Actions`): the field rules, `safeParse` with its field-error
  map, and `submitRsvp`. The answer of the store is a parameter.
- `rsvp_form.dfy` (`RsvpFormView`): what the form submits, the toast, the
  screen, and the mounted form as a class whose `state` each submission
  replaces.
- `wedding_template2.dfy` (`WeddingTemplate2`): the template's display logic,
  and the mounted page as a class holding `isOpen` and the form.

Behaviour of the code worth knowing:

- A failed submission does not keep what the guest typed. React 19 resets a
  form whose `action` is a function once that action has finished, so every
  control goes back to its default. The state that survives holds only a
  message and the field errors. Control contents are not modelled.
- A field can fail two checks. A count such as "0.5" gets both the integer and
  the minimum message, and the form shows only the first.
- The count must be a whole number of at least 1 even when the guest declines.
- A missing `notes` entry (`null`) fails `z.string().optional()`, which admits
  only `undefined`. The form always sends its text area, so this needs a
  request built by other means.

## Model

| member | source | states |
|---|---|---|
| Actions.SubmitRsvp | src/app/actions.ts:17-64 | the action's outcome; specified by Actions.RejectedSubmission, Actions.AcceptedSubmission, Actions.AcceptedRow and Actions.ThankYouIffStored |
| Actions.SafeParse | src/app/actions.ts:27-33 | the schema's parse; specified by Actions.ParseReportsEveryFailingField and Actions.AcceptedSubmission |
| Actions.GuestNameIssues | src/app/actions.ts:11 | the name rule; specified by Actions.GuestNameRule |
| Actions.GuestCountIssues | src/app/actions.ts:13 | the count rule on the entry; specified by Actions.GuestCountRule and the GuestCount lemmas below |
| Actions.CountIssuesOf | src/app/actions.ts:13 | the int and min checks on the coerced number; specified by Actions.IntegerCountIssues, Actions.FractionCountIssues and Actions.NegatedCountIssues |
| Actions.InvitationIdIssues | src/app/actions.ts:10 | the id passes exactly when it is present and matches the UUID pattern |
| Actions.UuidGroups | src/app/actions.ts:10 | the UUID pattern is the same as five hex groups of 8, 4, 4, 4 and 12 digits joined by dashes |
| Actions.GuestNameRule | src/app/actions.ts:11 | a name fails only with "Name is required"; two characters or more pass; the empty name fails; for BMP text, passing means length at least 2 |
| Actions.IsAttendingIssues | src/app/actions.ts:12 | passes exactly on "yes" or "no"; every failure, a missing entry included, carries "Please select an option" |
| Actions.GuestCountRule | src/app/actions.ts:13 | the count passes exactly when it coerces to an integer of at least 1; NaN gives only the number message; null coerces to 0 and fails the minimum; a non-integer reports the integer message first |
| Actions.IntegerCountIssues | src/app/actions.ts:13 | an integer fails only the minimum, and only below 1 |
| Actions.NegatedCountIssues | src/app/actions.ts:13 | the negation of a natural number fails the minimum only |
| Actions.FractionCountIssues | src/app/actions.ts:13 | a number strictly between two integers, negative ones included, fails the integer check, and also the minimum when below 1 |
| Actions.GuestCountNumeral | src/app/actions.ts:13 | a plain numeral passes exactly when it denotes at least 1, else it fails only the minimum |
| Actions.GuestCountNegated | src/app/actions.ts:13 | a minus sign followed by digits fails the minimum only |
| Actions.GuestCountFraction | src/app/actions.ts:13 | "w.f" with non-zero digits after the point fails the integer check, and also the minimum when w denotes 0 |
| Actions.GuestCountNonNumeric | src/app/actions.ts:13 | text whose first non-blank character cannot start a number fails with the number message alone |
| Actions.GuestCountOfNumeral | src/app/actions.ts:13 | String(n) for a positive n passes and coerces back to n |
| Actions.NotesIssues | src/app/actions.ts:14 | notes pass exactly when the entry is present; null fails |
| Actions.ValidIffNoIssues | src/app/actions.ts:9-15 | the schema accepts exactly when no field has an issue |
| Actions.FieldErrors | src/app/actions.ts:38 | the flattened field errors hold exactly the failing fields, each with all its messages |
| Actions.ParseReportsEveryFailingField | src/app/actions.ts:27-33 | the parse fails exactly when some field fails, and then reports a non-empty map of every failing field and its messages |
| Actions.RejectedSubmission | src/app/actions.ts:36-41 | a rejected submission sends nothing and returns the validation message with every failing field's messages |
| Actions.AcceptedSubmission | src/app/actions.ts:44-59 | valid input sends exactly one row: the submitted strings unchanged, 'yes' as true and 'no' as false, the coerced count (at least 1); the reply selects the thank-you or the database message, with no errors |
| Actions.AcceptedRow | src/app/actions.ts:44-54 | the one row sent for valid input whose count coerces to x, field by field |
| Actions.ThankYouIffStored | src/app/actions.ts:36-63 | the result mentions "Thank you" exactly when validation passed and the insert succeeded, which is exactly when the table gains one row; the message is never empty |
| Actions.ThankYouSaysThankYou | src/app/actions.ts:63 | the success message contains "Thank you" |
| Actions.ValidationFailedLacksThankYou | src/app/actions.ts:39 | the validation message does not contain "Thank you" |
| Actions.DatabaseErrorLacksThankYou | src/app/actions.ts:58 | the database message does not contain "Thank you" |
| Actions.SampleIdIsUuid | src/app/actions.ts:10 | the nil UUID matches the pattern |
| Actions.JaneDoeIsValid | src/app/actions.ts:9-15 | Jane Doe, attending with 3 guests, passes every rule |
| Actions.SampleAccepted | src/app/actions.ts:56-63 | that submission with a successful insert returns the thank-you message with no errors and stores one row |
| Actions.SampleRow | src/app/actions.ts:44-54 | the stored row has is_attending true and guest_count 3 |
| Actions.ShortNameIssues | src/app/actions.ts:11 | with the name "J", only guest_name fails, with "Name is required" |
| Actions.SampleRejected | src/app/actions.ts:36-41 | the name "J" sends nothing and returns the validation message with guest_name as the only error |
| JsNumber.StringToNumber | src/app/actions.ts:13 | `Number(...)` on text; specified by the JsNumber lemmas below |
| JsNumber.ToNumber | src/app/actions.ts:13 | `Number(...)` on a form entry, null giving 0; specified by Actions.GuestCountRule and the JsNumber lemmas below |
| JsNumber.NumeralToNumber | src/app/actions.ts:13 | `Number` of a plain decimal numeral is the number it denotes |
| JsNumber.NegatedNumeralToNumber | src/app/actions.ts:13 | `Number` of "-" followed by a numeral is the negated number |
| JsNumber.FractionToNumber | src/app/actions.ts:13 | `Number` of "w.f" is the whole part plus the fraction the digits after the point denote |
| JsNumber.FractionDigitsValue | src/app/actions.ts:13 | the digits after a point denote a value in [0, 1), positive unless they are all zeros |
| JsNumber.NatNumeralRoundTrip | src/app/actions.ts:13 | `Number(String(n))` is n |
| JsNumber.BlankIsZero | src/app/actions.ts:13 | empty or white-space-only text converts to 0 |
| JsNumber.ForeignStartIsNaN | src/app/actions.ts:13 | text whose first non-blank character cannot start a numeric literal converts to NaN |
| JsNumber.IsInteger | src/app/actions.ts:13 | `Number.isInteger`, the test behind `.int()`; specified by Actions.IntegerCountIssues, Actions.FractionCountIssues and Actions.GuestCountRule |
| JsValues.OrChain | src/components/templates/WeddingTemplate2.tsx:61 | the chain of two optional strings and a default picks the first truthy operand, else the default, and is non-empty when the default is |
| JsValues.PadStart | src/components/templates/WeddingTemplate2.tsx:46 | `padStart` keeps the string as its suffix, fills only the front, and reaches the width |
| JsValues.NatToDecimal | src/components/templates/WeddingTemplate2.tsx:46 | String(n) below 10^21 is a non-empty digit string without a leading zero, one digit long exactly below 10 |
| JsValues.Utf16LengthOfBmp | src/app/actions.ts:11 | for text inside the Basic Multilingual Plane the UTF-16 length is the character count |
| JsValues.IncludesIffFound | src/components/RsvpForm.tsx:45 | `includes` holds exactly when the left-to-right search finds an index |
| JsValues.DecimalRoundTrip | src/components/templates/WeddingTemplate2.tsx:46 | reading back String(n) gives n |
| JsValues.LeadingZerosValue | src/components/templates/WeddingTemplate2.tsx:46 | padding with leading zeros keeps the numeral's value |
| JsValues.FilterTruthyMembers | src/components/templates/WeddingTemplate2.tsx:98-103 | a string survives `filter(Boolean)` exactly when it is non-empty and present in the input |
| JsValues.FilterTruthyAppend | src/components/templates/WeddingTemplate2.tsx:98-103 | filtering commutes with concatenation, so survivors keep their order |
| JsValues.FilterTruthyEmpty | src/components/templates/WeddingTemplate2.tsx:98-103 | nothing survives exactly when no entry is truthy |
| JsValues.Or | src/components/templates/WeddingTemplate2.tsx:61 | JavaScript or-ing of two optional strings (address, then venue); specified by JsValues.OrChain |
| JsValues.OrDefault | src/components/templates/WeddingTemplate2.tsx:114 | or-ing an optional string with a string literal default; specified by JsValues.OrChain |
| JsValues.Includes | src/components/RsvpForm.tsx:45 | `includes`; specified by JsValues.IncludesIffFound |
| JsValues.Utf16Length | src/app/actions.ts:11 | the `.length` that `min(2)` measures: at least one and at most two units per character; specified further by JsValues.Utf16LengthOfBmp |
| JsValues.FilterTruthy | src/components/templates/WeddingTemplate2.tsx:98-103 | `filter(Boolean)` keeps no more entries than it is given, and none of them empty; specified further by JsValues.FilterTruthyMembers, JsValues.FilterTruthyAppend and JsValues.FilterTruthyEmpty |
| RsvpFormView.FormDataOf | src/components/RsvpForm.tsx:61-95 | the form data a submission sends; specified by RsvpFormView.SubmittedFields |
| RsvpFormView.ToastFor | src/components/RsvpForm.tsx:44-50 | the toast effect; specified by RsvpFormView.ToastAgreesWithPanel |
| RsvpFormView.View | src/components/RsvpForm.tsx:52-96 | the screen drawn for a state; specified by RsvpFormView.InitialView, RsvpFormView.PanelIffStored, RsvpFormView.RejectionShowsFirstIssues and RsvpFormView.DatabaseErrorShowsCleanForm |
| RsvpFormView.ShowsThankYou | src/components/RsvpForm.tsx:52 | the panel test `state.message?.includes('Thank you')`; specified by Actions.ThankYouIffStored and RsvpFormView.PanelIffStored |
| RsvpFormView.RadioValuesAccepted | src/components/RsvpForm.tsx:74-78 | both radio values pass the attendance rule, and "yes" is the attending one |
| RsvpFormView.DefaultCountAccepted | src/components/RsvpForm.tsx:87 | the default count "1" passes and coerces to 1 |
| RsvpFormView.SubmittedFields | src/components/RsvpForm.tsx:61-95 | the hidden id is the prop; notes always pass; the attendance rule fails exactly when no radio is checked; with a radio checked, the default count and a name of two or more characters, validity is exactly the prop being a UUID |
| RsvpFormView.ToastAgreesWithPanel | src/components/RsvpForm.tsx:44-52 | a success toast exactly when the panel is shown, an error toast for any other non-empty message, none for the empty one, and the toast shows the message |
| RsvpFormView.FirstError | src/components/RsvpForm.tsx:67 | a field shows a paragraph exactly when it has an entry in the errors, holding the first message when there is one |
| RsvpFormView.InitialView | src/components/RsvpForm.tsx:37-50 | the first state shows the form with no error under any field and raises no toast |
| RsvpFormView.ViewIgnoresNotesAndId | src/components/RsvpForm.tsx:61-96 | errors recorded under notes or invitation_id never change what is drawn |
| RsvpFormView.PanelIffStored | src/components/RsvpForm.tsx:44-59 | after a submission the panel appears exactly when one row was stored, exactly when the input was valid and the insert succeeded; every submission raises a toast, a success one exactly then |
| RsvpFormView.RejectionShowsFirstIssues | src/components/RsvpForm.tsx:67-88 | a rejected submission keeps the form up, with each displayed field's first message under it and nothing under a passing field |
| RsvpFormView.DatabaseErrorShowsCleanForm | src/components/RsvpForm.tsx:44-88 | a failed insert keeps the form up with no field errors and raises the database error toast |
| RsvpFormView.RsvpForm.constructor | src/components/RsvpForm.tsx:36-41 | a new form starts from the initial state with nothing stored and shows the empty form |
| RsvpFormView.RsvpForm.Submit | src/components/RsvpForm.tsx:41-59 | the action's result replaces the state, the table gains what the insert stored, the toast for the new message is raised; at most one row is ever stored and the panel is up exactly when it has been |
| WeddingTemplate2.GalleryPhotos | src/components/templates/WeddingTemplate2.tsx:98-103 | the gallery list; specified by WeddingTemplate2.GalleryCompaction |
| WeddingTemplate2.TimeValue | src/components/templates/WeddingTemplate2.tsx:46 | one countdown cell's text; specified by WeddingTemplate2.TimeValueDisplay |
| WeddingTemplate2.CountdownOf | src/components/templates/WeddingTemplate2.tsx:38-57 | the countdown timer; specified by WeddingTemplate2.CountdownRule, WeddingTemplate2.CountdownCaptions and WeddingTemplate2.CountdownValues |
| WeddingTemplate2.CountdownSection | src/components/templates/WeddingTemplate2.tsx:155 | the countdown section; specified by WeddingTemplate2.CountdownSectionRule |
| WeddingTemplate2.FormatDate | src/components/templates/WeddingTemplate2.tsx:86-89 | `formatDate`; specified by WeddingTemplate2.FormatDateFallback |
| WeddingTemplate2.MapsQuery | src/components/templates/WeddingTemplate2.tsx:61 | the maps search term; specified by WeddingTemplate2.MapsQueryFallback |
| WeddingTemplate2.CeremonyCard | src/components/templates/WeddingTemplate2.tsx:162-168 | the ceremony card; specified by WeddingTemplate2.ReceptionDateFallback and WeddingTemplate2.FormatDateFallback |
| WeddingTemplate2.ReceptionCard | src/components/templates/WeddingTemplate2.tsx:169-175 | the reception card; specified by WeddingTemplate2.ReceptionDateFallback |
| WeddingTemplate2.CoverHeading | src/components/templates/WeddingTemplate2.tsx:114 | the cover heading; specified by WeddingTemplate2.CoverHeadingNames |
| WeddingTemplate2.HandleCopy | src/components/templates/WeddingTemplate2.tsx:91-95 | `handleCopy`; specified by WeddingTemplate2.CopyGuard |
| WeddingTemplate2.GalleryCompaction | src/components/templates/WeddingTemplate2.tsx:98-103 | the gallery holds each non-empty photo field once, in field order, at most four, and the section is drawn exactly when some photo field is non-empty |
| WeddingTemplate2.TimeValueDisplay | src/components/templates/WeddingTemplate2.tsx:46 | a cell shows the digits of max(0, value), at least two of them: "00" for a negative value, exactly two for 0 to 99, and the plain numeral from 10 on |
| WeddingTemplate2.CountdownRule | src/components/templates/WeddingTemplate2.tsx:42-44 | "The event has begun!" is shown exactly when all four components are negative; otherwise there are four cells |
| WeddingTemplate2.CountdownCaptions | src/components/templates/WeddingTemplate2.tsx:47-55 | the cells are captioned Days, Hours, Minutes and Seconds, in that order |
| WeddingTemplate2.CountdownValues | src/components/templates/WeddingTemplate2.tsx:46-55 | each cell shows its own component clamped at 0 |
| WeddingTemplate2.CountdownSectionRule | src/components/templates/WeddingTemplate2.tsx:155 | the timer appears exactly when a ceremony date is given, counting down to that date |
| WeddingTemplate2.FormatDateFallback | src/components/templates/WeddingTemplate2.tsx:86-89 | a missing or empty date reads "Date TBD"; any other is handed to the locale formatting |
| WeddingTemplate2.ReceptionDateFallback | src/components/templates/WeddingTemplate2.tsx:162-175 | the reception card shows the reception date, else the ceremony date, and "Date TBD" on both cards when neither is given |
| WeddingTemplate2.MapsQueryFallback | src/components/templates/WeddingTemplate2.tsx:61 | the maps search term is the address, else the venue, and is empty exactly when neither is given |
| WeddingTemplate2.MapsUrl | src/components/templates/WeddingTemplate2.tsx:61 | the maps link always starts with the Google Maps search prefix |
| WeddingTemplate2.CoverHeadingNames | src/components/templates/WeddingTemplate2.tsx:114 | each side of the cover heading is the given name or its default, and neither side is empty |
| WeddingTemplate2.CopyGuard | src/components/templates/WeddingTemplate2.tsx:91-95 | a copy has an effect exactly when there is an account number; then the clipboard gets that number first, and the confirmation toast comes last |
| WeddingTemplate2.WeddingInvitation.constructor | src/components/templates/WeddingTemplate2.tsx:81 | the page starts closed, showing the cover, with no form mounted |
| WeddingTemplate2.WeddingInvitation.HandleOpen | src/components/templates/WeddingTemplate2.tsx:83-122 | opening sets the flag for good and shows the main page; the first opening mounts a fresh form in its initial state, and later ones keep the same form |
| WeddingTemplate2.WeddingInvitation.Respond | src/components/templates/WeddingTemplate2.tsx:213-218 | a submission of the mounted form updates that form as its own submit does and leaves the invitation open |

## Left out

- The Supabase client is not modelled. The insert is a parameter of the action, and `createServerClient` is not modelled.
- `revalidatePath` and `console.error` have no effect on the state or the result, so they are left out.
- `prevState` is never read by the action, so it is not a parameter.
- `formData.get` can also return a `File`; the model only has strings and null.
- zod's internals are left out, and so is any zod release other than 3.23 and later 3.x. zod 4 accepts only UUIDs with RFC 9562 version and variant digits and words its messages differently. The issues of each rule are modelled directly, with zod 3's default messages, and issue codes and paths are not modelled.
- JsNumber.StringToNumber: computes on exact reals. It does not model IEEE-754 rounding to the nearest double, overflow to infinity, or `-0`. So a numeral too long for a double gives its exact value rather than a rounded one.
- Actions.SafeParse: the parsed `guest_count` is the coerced number's integer value. This is the same number only because the integer check passed.
- WeddingTemplate2.TimeValue: writes every count as its plain numeral, whereas JavaScript's `String(n)` switches to exponent notation from 10^21 on. No countdown component reaches that.
- `toLocaleDateString` and `new Date(...)` are the `localeDate` parameter of WeddingTemplate2.FormatDate. Locale formatting and date parsing are not modelled.
- `useCountdown` is a parameter yielding four integers. The clock and the hook's own arithmetic are not part of this model.
- `encodeURIComponent` is the `encode` parameter of WeddingTemplate2.MapsUrl.
- The clipboard write and the toasts are modelled as effect values, not as calls into `navigator.clipboard` or `react-hot-toast`.
- The browser's own constraint validation is left out: the `required`, `min="1"` and `type="number"` attributes. The model treats every entry as reaching the action.
- `SubmitButton` is left out. Its pending label and disabled state come from `useFormStatus`, which is about timing rather than data.
- The asynchronous run of the action is folded into one step of RsvpFormView.RsvpForm.Submit. So is the re-render that follows.
- The contents of the other page sections (couple introduction, gift section text), image elements, styling and layout are left out.
- The other templates and pages of the repository are not part of this model.
