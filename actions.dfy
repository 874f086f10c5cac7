/**
 * The RSVP server action: the five field rules of `RsvpSchema` (as zod applies
 * them, with zod's default English messages where the schema gives none), the
 * field-error map of a failed parse, the row handed to the `rsvps` insert, and
 * the three outcomes of `submitRsvp`.
 */
module Actions {
  import opened JsValues
  import opened JsNumber

  /* ---------------- form fields and messages ---------------- */

  datatype Field = InvitationId | GuestName | IsAttending | GuestCount | Notes

  /** `formData.get(name)` for each field: the submitted string, or None for `null`. */
  datatype FormData = FormData(
    invitationId: Option<string>,
    guestName: Option<string>,
    isAttending: Option<string>,
    guestCount: Option<string>,
    notes: Option<string>)

  const ExpectedString := "Expected string, received null"
  const InvalidUuid := "Invalid uuid"
  const NameRequired := "Name is required"
  const SelectOption := "Please select an option"
  const ExpectedNumber := "Expected number, received nan"
  const ExpectedInteger := "Expected integer, received float"
  const GuestRequired := "At least one guest is required"

  const ValidationFailed := "Validation failed. Please check your input."
  const DatabaseError := "Database error: Could not save your RSVP."
  const ThankYou := "Thank you for your response!"

  /* ---------------- invitation_id: z.string().uuid() ---------------- */

  predicate IsDashPosition(k: int) {
    k == 8 || k == 13 || k == 18 || k == 23
  }

  /** zod's uuid pattern: 36 characters, dashes at 8, 13, 18 and 23, hex digits (any case) elsewhere. */
  predicate IsUuid(s: string) {
    |s| == 36 && forall k :: 0 <= k < 36 ==> if IsDashPosition(k) then s[k] == '-' else IsRadixDigit(s[k], 16)
  }

  /** The same pattern read as five hex groups of 8, 4, 4, 4 and 12 digits joined by dashes. */
  lemma {:induction false} UuidGroups(s: string)
    requires |s| == 36
    ensures IsUuid(s) <==>
      AllRadixDigits(s[0..8], 16) && s[8] == '-' && AllRadixDigits(s[9..13], 16) && s[13] == '-' &&
      AllRadixDigits(s[14..18], 16) && s[18] == '-' && AllRadixDigits(s[19..23], 16) && s[23] == '-' &&
      AllRadixDigits(s[24..36], 16)
  {
    if AllRadixDigits(s[0..8], 16) && s[8] == '-' && AllRadixDigits(s[9..13], 16) && s[13] == '-' &&
       AllRadixDigits(s[14..18], 16) && s[18] == '-' && AllRadixDigits(s[19..23], 16) && s[23] == '-' &&
       AllRadixDigits(s[24..36], 16)
    {
      forall k | 0 <= k < 36 && !IsDashPosition(k) ensures IsRadixDigit(s[k], 16) {
        if k < 8 { assert s[0..8][k] == s[k]; }
        else if k < 13 { assert s[9..13][k - 9] == s[k]; }
        else if k < 18 { assert s[14..18][k - 14] == s[k]; }
        else if k < 23 { assert s[19..23][k - 19] == s[k]; }
        else { assert s[24..36][k - 24] == s[k]; }
      }
    }
  }

  function InvitationIdIssues(v: Option<string>): (r: seq<string>)
    ensures r == [] <==> v.Some? && IsUuid(v.value)
  {
    match v
    case None => [ExpectedString]
    case Some(s) => if IsUuid(s) then [] else [InvalidUuid]
  }

  /* ---------------- guest_name: z.string().min(2, ...) ---------------- */

  /** zod measures the length in UTF-16 code units. */
  function GuestNameIssues(v: Option<string>): seq<string> {
    match v
    case None => [ExpectedString]
    case Some(s) => if Utf16Length(s) < 2 then [NameRequired] else []
  }

  /** A short name fails with exactly "Name is required"; any name of two or more characters passes. */
  lemma GuestNameRule(s: string)
    ensures GuestNameIssues(Some(s)) == [] || GuestNameIssues(Some(s)) == [NameRequired]
    ensures |s| >= 2 ==> GuestNameIssues(Some(s)) == []
    ensures |s| == 0 ==> GuestNameIssues(Some(s)) == [NameRequired]
    ensures (forall k :: 0 <= k < |s| ==> s[k] as int < 0x1_0000) ==>
      (GuestNameIssues(Some(s)) == [] <==> |s| >= 2)
  {
    if forall k :: 0 <= k < |s| ==> s[k] as int < 0x1_0000 {
      Utf16LengthOfBmp(s);
    }
  }

  /* ---------------- is_attending: z.enum(['yes', 'no'], { message }) ---------------- */

  /** Every failure of the enum, the missing-value one included, carries the schema's message. */
  function IsAttendingIssues(v: Option<string>): (r: seq<string>)
    ensures r == [] <==> v == Some("yes") || v == Some("no")
    ensures r != [] ==> r == [SelectOption]
  {
    if v == Some("yes") || v == Some("no") then [] else [SelectOption]
  }

  /* ---------------- guest_count: z.coerce.number().int().min(1, ...) ---------------- */

  /**
   * The checks on the coerced number: it must be a number; then the integer
   * check and the minimum check both run, each adding its message when it fails.
   */
  function CountIssuesOf(n: Number): seq<string> {
    if n == NaN then [ExpectedNumber]
    else (if IsInteger(n) then [] else [ExpectedInteger]) + (if LessThan(n, 1.0) then [GuestRequired] else [])
  }

  /** `z.coerce.number()` applies `Number(...)` to the entry before the checks. */
  function GuestCountIssues(v: Option<string>): seq<string> {
    CountIssuesOf(ToNumber(v))
  }

  /** The count passes exactly when it coerces to an integer of at least 1. */
  lemma GuestCountRule(v: Option<string>)
    ensures GuestCountIssues(v) == [] <==> IsInteger(ToNumber(v)) && ToNumber(v).value >= 1.0
    ensures ToNumber(v) == NaN ==> GuestCountIssues(v) == [ExpectedNumber]
    ensures ToNumber(v) == Finite(0.0) ==> GuestCountIssues(v) == [GuestRequired]
    ensures ToNumber(v).Finite? && ToNumber(v).value < 1.0 ==> GuestRequired in GuestCountIssues(v)
    ensures ToNumber(v).Finite? && !IsInteger(ToNumber(v)) ==> GuestCountIssues(v)[0] == ExpectedInteger
    ensures v.None? ==> GuestCountIssues(v) == [GuestRequired]
  {
  }

  /** An integer fails only the minimum, and only below 1. */
  lemma IntegerCountIssues(n: Number, x: int)
    requires n == Finite(x as real)
    ensures CountIssuesOf(n) == if x >= 1 then [] else [GuestRequired]
  {
    assert (x as real).Floor == x;
  }

  /** A negated natural number fails the minimum only. */
  lemma NegatedCountIssues(n: Number, x: nat)
    requires n == Finite(-(x as real))
    ensures CountIssuesOf(n) == [GuestRequired]
  {
    IntegerCountIssues(n, -(x as int));
  }

  /** On a plain numeral: "0" (or "00", ...) is too small; any other numeral passes. */
  lemma GuestCountNumeral(s: string)
    requires s != "" && AllDigits(s)
    ensures GuestCountIssues(Some(s)) == if DecimalValue(s) >= 1 then [] else [GuestRequired]
  {
    NumeralToNumber(s);
    IntegerCountIssues(ToNumber(Some(s)), DecimalValue(s));
  }

  /** A minus sign followed by digits gives a count that is too small. */
  lemma GuestCountNegated(t: string)
    requires |t| >= 2 && t[0] == '-' && AllDigits(t[1..])
    ensures GuestCountIssues(Some(t)) == [GuestRequired]
  {
    NegatedNumeralToNumber(t);
    NegatedCountIssues(ToNumber(Some(t)), DecimalValue(t[1..]));
  }


  /** A number strictly between two integers fails the integer check, and the minimum below 1 too. */
  lemma FractionCountIssues(n: Number, x: int, q: real)
    requires 0.0 < q < 1.0 && n == Finite(x as real + q)
    ensures CountIssuesOf(n) == [ExpectedInteger] + (if x < 1 then [GuestRequired] else [])
  {
    assert (x as real + q).Floor == x;
  }

  /**
   * A decimal fraction whose digits after the point are not all zeros ("1.5",
   * "0.25") fails the integer check, and when its whole part is 0 the minimum too;
   * both messages are reported, the integer one first.
   */
  lemma GuestCountFraction(w: string, f: string)
    requires AllDigits(w) && AllDigits(f) && DecimalValue(f) > 0
    ensures GuestCountIssues(Some(w + "." + f)) ==
      [ExpectedInteger] + (if DecimalValue(w) == 0 then [GuestRequired] else [])
  {
    FractionToNumber(w, f);
    FractionDigitsValue(f);
    FractionCountIssues(ToNumber(Some(w + "." + f)), DecimalValue(w), FractionValue(f));
  }

  /** Text that cannot start a number (a letter other than the I of Infinity, say) is not a number. */
  lemma GuestCountNonNumeric(s: string)
    requires Trim(s) != "" && Trim(s)[0] !in "0123456789+-.I"
    ensures GuestCountIssues(Some(s)) == [ExpectedNumber]
  {
    ForeignStartIsNaN(s);
  }

  /** The numeral of any positive integer passes with exactly that count. */
  lemma GuestCountOfNumeral(n: nat)
    requires n >= 1
    ensures GuestCountIssues(Some(NatToDecimal(n))) == []
    ensures ToNumber(Some(NatToDecimal(n))) == Finite(n as real)
  {
    NatNumeralRoundTrip(n);
    IntegerCountIssues(ToNumber(Some(NatToDecimal(n))), n);
  }

  /* ---------------- notes: z.string().optional() ---------------- */

  /** `.optional()` admits `undefined` only; the `null` of a missing entry fails the string check. */
  function NotesIssues(v: Option<string>): (r: seq<string>)
    ensures r == [] <==> v.Some?
  {
    if v.Some? then [] else [ExpectedString]
  }

  /* ---------------- the whole schema ---------------- */

  const AllFields: set<Field> := {InvitationId, GuestName, IsAttending, GuestCount, Notes}

  lemma AllFieldsListed()
    ensures forall f: Field :: f in AllFields
  {
    forall f: Field ensures f in AllFields {
      match f
      case InvitationId =>
      case GuestName =>
      case IsAttending =>
      case GuestCount =>
      case Notes =>
    }
  }

  function Issues(fd: FormData, f: Field): seq<string> {
    match f
    case InvitationId => InvitationIdIssues(fd.invitationId)
    case GuestName => GuestNameIssues(fd.guestName)
    case IsAttending => IsAttendingIssues(fd.isAttending)
    case GuestCount => GuestCountIssues(fd.guestCount)
    case Notes => NotesIssues(fd.notes)
  }

  predicate IsValid(fd: FormData) {
    && InvitationIdIssues(fd.invitationId) == []
    && GuestNameIssues(fd.guestName) == []
    && IsAttendingIssues(fd.isAttending) == []
    && GuestCountIssues(fd.guestCount) == []
    && NotesIssues(fd.notes) == []
  }

  /** Valid means that no field has an issue. */
  lemma ValidIffNoIssues(fd: FormData)
    ensures IsValid(fd) <==> forall f: Field :: Issues(fd, f) == []
  {
    if IsValid(fd) {
      forall f: Field ensures Issues(fd, f) == [] {
        match f
        case InvitationId =>
        case GuestName =>
        case IsAttending =>
        case GuestCount =>
        case Notes =>
      }
    } else {
      if InvitationIdIssues(fd.invitationId) != [] { assert Issues(fd, InvitationId) != []; }
      else if GuestNameIssues(fd.guestName) != [] { assert Issues(fd, GuestName) != []; }
      else if IsAttendingIssues(fd.isAttending) != [] { assert Issues(fd, IsAttending) != []; }
      else if GuestCountIssues(fd.guestCount) != [] { assert Issues(fd, GuestCount) != []; }
      else { assert Issues(fd, Notes) != []; }
    }
  }

  /** `error.flatten().fieldErrors`: one entry per failing field, holding that field's messages. */
  function FieldErrors(fd: FormData): (errs: map<Field, seq<string>>)
    ensures forall f :: f in errs <==> Issues(fd, f) != []
    ensures forall f :: f in errs ==> errs[f] == Issues(fd, f)
  {
    AllFieldsListed();
    map f | f in AllFields && Issues(fd, f) != [] :: Issues(fd, f)
  }

  /** The data of a successful parse. */
  datatype RsvpData = RsvpData(
    invitationId: string,
    guestName: string,
    isAttending: string,
    guestCount: int,
    notes: string)

  /** `RsvpSchema.safeParse(...)`. */
  datatype ParseResult = Parsed(data: RsvpData) | Invalid(fieldErrors: map<Field, seq<string>>)

  function SafeParse(fd: FormData): ParseResult {
    if IsValid(fd) then
      Parsed(RsvpData(fd.invitationId.value, fd.guestName.value, fd.isAttending.value,
                      ToNumber(fd.guestCount).value.Floor, fd.notes.value))
    else Invalid(FieldErrors(fd))
  }

  /** A parse fails exactly when some field fails, and then reports all of them, each with its messages. */
  lemma ParseReportsEveryFailingField(fd: FormData)
    ensures SafeParse(fd).Invalid? <==> exists f: Field :: Issues(fd, f) != []
    ensures SafeParse(fd).Invalid? ==>
      SafeParse(fd).fieldErrors != map[] &&
      (forall f :: f in SafeParse(fd).fieldErrors <==> Issues(fd, f) != []) &&
      (forall f :: f in SafeParse(fd).fieldErrors ==> SafeParse(fd).fieldErrors[f] == Issues(fd, f))
  {
    ValidIffNoIssues(fd);
    if !IsValid(fd) {
      var f :| Issues(fd, f) != [];
      assert f in SafeParse(fd).fieldErrors;
    }
  }

  /* ---------------- submitRsvp ---------------- */

  /** One row of the `rsvps` table as the action builds it. */
  datatype Row = Row(
    invitationId: string,
    guestName: string,
    isAttending: bool,
    guestCount: int,
    notes: string)

  /** What the store answers to the insert. */
  datatype StoreReply = InsertOk | InsertError

  /** The action's result, which becomes the form's state. */
  datatype ActionState = ActionState(message: string, errors: map<Field, seq<string>>)

  /** The rows handed to the insert (none when validation fails) and the returned state. */
  datatype Submission = Submission(sent: seq<Row>, state: ActionState)

  /** `submitRsvp(prevState, formData)`; `prevState` is never read, so it is not a parameter. */
  function SubmitRsvp(fd: FormData, reply: StoreReply): Submission {
    match SafeParse(fd)
    case Invalid(errs) => Submission([], ActionState(ValidationFailed, errs))
    case Parsed(d) =>
      var row := Row(d.invitationId, d.guestName, d.isAttending == "yes", d.guestCount, d.notes);
      if reply == InsertError then Submission([row], ActionState(DatabaseError, map[]))
      else Submission([row], ActionState(ThankYou, map[]))
  }

  /** The rows the table gains from one submission. */
  function Stored(sub: Submission, reply: StoreReply): seq<Row> {
    if reply == InsertOk then sub.sent else []
  }

  /** A failed validation inserts nothing and reports every failing field under the fixed message. */
  lemma RejectedSubmission(fd: FormData, reply: StoreReply)
    requires !IsValid(fd)
    ensures SubmitRsvp(fd, reply).sent == []
    ensures SubmitRsvp(fd, reply).state.message == ValidationFailed
    ensures SubmitRsvp(fd, reply).state.errors != map[]
    ensures forall f :: f in SubmitRsvp(fd, reply).state.errors <==> Issues(fd, f) != []
    ensures forall f :: f in SubmitRsvp(fd, reply).state.errors ==>
      SubmitRsvp(fd, reply).state.errors[f] == Issues(fd, f)
  {
    ParseReportsEveryFailingField(fd);
  }

  /**
   * Valid input sends exactly one row: the submitted strings unchanged, `'yes'`
   * turned into true and anything else (that is, `'no'`) into false, and the
   * coerced count; the reply decides between the two remaining messages.
   */
  lemma AcceptedSubmission(fd: FormData, reply: StoreReply)
    requires IsValid(fd)
    ensures fd.invitationId.Some? && fd.guestName.Some? && fd.isAttending.Some? && fd.notes.Some?
    ensures fd.isAttending.value == "yes" || fd.isAttending.value == "no"
    ensures |SubmitRsvp(fd, reply).sent| == 1
    ensures var row := SubmitRsvp(fd, reply).sent[0];
      row.invitationId == fd.invitationId.value && row.guestName == fd.guestName.value &&
      row.isAttending == (fd.isAttending.value == "yes") && row.notes == fd.notes.value &&
      row.guestCount >= 1 && ToNumber(fd.guestCount) == Finite(row.guestCount as real)
    ensures SubmitRsvp(fd, reply).state.errors == map[]
    ensures SubmitRsvp(fd, reply).state.message == if reply == InsertOk then ThankYou else DatabaseError
  {
  }

  /** The row of a valid submission whose count coerces to `x`. */
  lemma AcceptedRow(fd: FormData, reply: StoreReply, x: int)
    requires IsValid(fd) && ToNumber(fd.guestCount) == Finite(x as real)
    ensures SubmitRsvp(fd, reply).sent ==
      [Row(fd.invitationId.value, fd.guestName.value, fd.isAttending.value == "yes", x, fd.notes.value)]
  {
    AcceptedSubmission(fd, reply);
    assert SubmitRsvp(fd, reply).sent[0].guestCount == x by {
      assert Finite(SubmitRsvp(fd, reply).sent[0].guestCount as real) == Finite(x as real);
    }
  }

  /** The success message begins with "Thank you". */
  lemma ThankYouSaysThankYou()
    ensures Includes(ThankYou, "Thank you")
  {
    assert ThankYou[..9] == "Thank you";
    PrefixIncluded(ThankYou, "Thank you");
  }

  /** The validation message has no capital T, so it cannot contain "Thank you". */
  lemma ValidationFailedLacksThankYou()
    ensures !Includes(ValidationFailed, "Thank you")
  {
    assert 'T' !in ValidationFailed;
    NotIncludesWithoutFirstChar(ValidationFailed, "Thank you");
  }

  /** The database message has no capital T, so it cannot contain "Thank you". */
  lemma DatabaseErrorLacksThankYou()
    ensures !Includes(DatabaseError, "Thank you")
  {
    assert 'T' !in DatabaseError;
    NotIncludesWithoutFirstChar(DatabaseError, "Thank you");
  }

  /** The returned message says "Thank you" exactly when validation passed and the row was stored. */
  lemma ThankYouIffStored(fd: FormData, reply: StoreReply)
    ensures Includes(SubmitRsvp(fd, reply).state.message, "Thank you")
      <==> IsValid(fd) && reply == InsertOk
    ensures |Stored(SubmitRsvp(fd, reply), reply)| == if IsValid(fd) && reply == InsertOk then 1 else 0
    ensures SubmitRsvp(fd, reply).state.message != ""
  {
    var sub := SubmitRsvp(fd, reply);
    if !IsValid(fd) {
      RejectedSubmission(fd, reply);
      ValidationFailedLacksThankYou();
    } else if reply == InsertOk {
      AcceptedSubmission(fd, reply);
      ThankYouSaysThankYou();
    } else {
      AcceptedSubmission(fd, reply);
      DatabaseErrorLacksThankYou();
    }
  }

  /** The nil UUID, written in lower case. */
  const SampleId := "00000000-0000-0000-0000-000000000000"

  lemma SampleIdIsUuid()
    ensures IsUuid(SampleId)
  {
    forall k | 0 <= k < 36
      ensures if IsDashPosition(k) then SampleId[k] == '-' else IsRadixDigit(SampleId[k], 16)
    {
    }
  }

  /** "Jane Doe" attending with "3" guests. */
  const JaneDoe := FormData(Some(SampleId), Some("Jane Doe"), Some("yes"), Some("3"), Some(""))

  /** The same entry with the one-letter name "J". */
  const ShortName := FormData(Some(SampleId), Some("J"), Some("yes"), Some("3"), Some(""))

  lemma JaneDoeIsValid()
    ensures IsValid(JaneDoe)
  {
    SampleIdIsUuid();
    GuestNameRule("Jane Doe");
    GuestCountNumeral("3");
  }

  /** The sample is answered with the thank-you message and no errors. */
  lemma SampleAccepted()
    ensures SubmitRsvp(JaneDoe, InsertOk).state == ActionState(ThankYou, map[])
    ensures |Stored(SubmitRsvp(JaneDoe, InsertOk), InsertOk)| == 1
  {
    JaneDoeIsValid();
    AcceptedSubmission(JaneDoe, InsertOk);
  }

  lemma JaneDoeCount()
    ensures ToNumber(JaneDoe.guestCount) == Finite(3 as real)
  {
    NumeralToNumber("3");
  }

  /** The sample is stored as one row with is_attending true and count 3. */
  lemma SampleRow()
    ensures SubmitRsvp(JaneDoe, InsertOk).sent == [Row(SampleId, "Jane Doe", true, 3, "")]
  {
    JaneDoeIsValid();
    JaneDoeCount();
    AcceptedRow(JaneDoe, InsertOk, 3);
  }

  /** Only guest_name fails for the short name. */
  lemma ShortNameIssues()
    ensures Issues(ShortName, GuestName) == [NameRequired]
    ensures forall f :: f != GuestName ==> Issues(ShortName, f) == []
  {
    SampleIdIsUuid();
    GuestNameRule("J");
    GuestCountNumeral("3");
  }

  /** The short name is rejected under guest_name alone, and nothing is sent. */
  lemma SampleRejected()
    ensures SubmitRsvp(ShortName, InsertOk)
      == Submission([], ActionState(ValidationFailed, map[GuestName := [NameRequired]]))
  {
    ShortNameIssues();
    assert !IsValid(ShortName) by { ValidIffNoIssues(ShortName); }
    RejectedSubmission(ShortName, InsertOk);
    var errs := SubmitRsvp(ShortName, InsertOk).state.errors;
    assert errs.Keys == {GuestName};
  }
}
