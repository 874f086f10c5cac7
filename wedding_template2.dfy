/**
 * The display logic of the "Modern Wedding Gala" template: the compacted
 * gallery, the countdown cells, the date and location fallbacks of the event
 * cards, the copy-account-number guard and the one-way cover flag, under
 * which the RSVP form is mounted.
 */
module WeddingTemplate2 {
  import opened JsValues
  import Actions
  import RsvpFormView

  /** The template's `custom_data`: every field is an optional string. */
  datatype CustomData = CustomData(
    coverPhoto: Option<string>,
    groomFullName: Option<string>,
    groomParents: Option<string>,
    groomPhoto: Option<string>,
    brideFullName: Option<string>,
    brideParents: Option<string>,
    bridePhoto: Option<string>,
    ceremonyDate: Option<string>,
    ceremonyTime: Option<string>,
    ceremonyVenue: Option<string>,
    ceremonyAddress: Option<string>,
    receptionDate: Option<string>,
    receptionTime: Option<string>,
    receptionVenue: Option<string>,
    receptionAddress: Option<string>,
    galleryPhoto1: Option<string>,
    galleryPhoto2: Option<string>,
    galleryPhoto3: Option<string>,
    galleryPhoto4: Option<string>,
    giftInfoBankName: Option<string>,
    giftInfoBankAccount: Option<string>,
    giftInfoAccountHolder: Option<string>)

  /* ---------------- gallery ---------------- */

  /** The four gallery fields, in order. */
  function GalleryFields(d: CustomData): seq<Option<string>> {
    [d.galleryPhoto1, d.galleryPhoto2, d.galleryPhoto3, d.galleryPhoto4]
  }

  /** `galleryPhotos`: the provided photo URLs. */
  function GalleryPhotos(d: CustomData): seq<string> {
    FilterTruthy(GalleryFields(d))
  }

  /** The gallery section is drawn when there is at least one photo. */
  predicate ShowsGallery(d: CustomData) {
    |GalleryPhotos(d)| > 0
  }

  /**
   * The gallery holds each non-empty photo field once, in field order, and
   * nothing else; so it has at most four entries, and the section is drawn
   * exactly when some photo field is non-empty.
   */
  lemma GalleryCompaction(d: CustomData)
    ensures GalleryPhotos(d) == Keep(d.galleryPhoto1) + Keep(d.galleryPhoto2) + Keep(d.galleryPhoto3) + Keep(d.galleryPhoto4)
    ensures |GalleryPhotos(d)| <= 4
    ensures forall s :: s in GalleryPhotos(d) <==> s != "" && Some(s) in GalleryFields(d)
    ensures ShowsGallery(d) <==>
      Truthy(d.galleryPhoto1) || Truthy(d.galleryPhoto2) || Truthy(d.galleryPhoto3) || Truthy(d.galleryPhoto4)
  {
    var g := GalleryFields(d);
    calc {
      FilterTruthy(g);
      Keep(g[0]) + FilterTruthy(g[1..]);
      Keep(g[0]) + (Keep(g[1]) + FilterTruthy(g[2..]));
      Keep(g[0]) + (Keep(g[1]) + (Keep(g[2]) + FilterTruthy(g[3..])));
      Keep(g[0]) + (Keep(g[1]) + (Keep(g[2]) + (Keep(g[3]) + FilterTruthy(g[4..]))));
      { assert g[4..] == []; }
      Keep(g[0]) + Keep(g[1]) + Keep(g[2]) + Keep(g[3]);
    }
    forall s ensures s in GalleryPhotos(d) <==> s != "" && Some(s) in g {
      FilterTruthyMembers(g, s);
    }
    FilterTruthyEmpty(g);
    if !ShowsGallery(d) {
      assert !Truthy(g[0]) && !Truthy(g[1]) && !Truthy(g[2]) && !Truthy(g[3]);
    }
  }

  /* ---------------- countdown ---------------- */

  /** `timeValue`: the component clamped at 0, as a numeral padded with '0' to two characters. */
  function TimeValue(value: int): string {
    PadStart(NatToDecimal(if value < 0 then 0 else value), 2, '0')
  }

  /**
   * A cell shows the decimal digits of max(0, value), at least two of them;
   * a negative component shows "00"; 0 to 99 show exactly two digits; from 10
   * on the numeral is shown without padding.
   */
  lemma TimeValueDisplay(value: int)
    ensures AllDigits(TimeValue(value)) && |TimeValue(value)| >= 2
    ensures DecimalValue(TimeValue(value)) == if value < 0 then 0 else value
    ensures value < 0 ==> TimeValue(value) == "00"
    ensures 0 <= value < 100 ==> |TimeValue(value)| == 2
    ensures value >= 10 ==> TimeValue(value) == NatToDecimal(value)
  {
    var n: nat := if value < 0 then 0 else value;
    var s := NatToDecimal(n);
    var r := TimeValue(value);
    DecimalRoundTrip(n);
    if |s| >= 2 {
      assert r == s;
    } else {
      var k := 2 - |s|;
      assert r == Repeat('0', k) + s;
      LeadingZerosValue(k, s);
    }
    if n < 100 {
      TwoDigitNumeral(n);
    }
    if value >= 10 {
      assert |s| != 1;
    }
    if value < 0 {
      assert s == "0";
      assert r == "0" + "0";
    }
  }

  /** One countdown cell: the padded value over its caption. */
  datatype Cell = Cell(value: string, caption: string)

  datatype Countdown = EventBegun | Cells(cells: seq<Cell>)

  /** `CountdownTimer` for the four components `useCountdown` yields. */
  function CountdownOf(days: int, hours: int, minutes: int, seconds: int): Countdown {
    if days < 0 && hours < 0 && minutes < 0 && seconds < 0 then EventBegun
    else Cells([Cell(TimeValue(days), "Days"), Cell(TimeValue(hours), "Hours"),
                Cell(TimeValue(minutes), "Minutes"), Cell(TimeValue(seconds), "Seconds")])
  }

  /** "The event has begun!" replaces the cells exactly when all four components are negative. */
  lemma CountdownRule(days: int, hours: int, minutes: int, seconds: int)
    ensures CountdownOf(days, hours, minutes, seconds) == EventBegun
      <==> days < 0 && hours < 0 && minutes < 0 && seconds < 0
    ensures CountdownOf(days, hours, minutes, seconds).Cells? ==>
      |CountdownOf(days, hours, minutes, seconds).cells| == 4
  {
  }

  /** Otherwise the four cells are captioned Days, Hours, Minutes and Seconds, in that order. */
  lemma CountdownCaptions(days: int, hours: int, minutes: int, seconds: int)
    requires !(days < 0 && hours < 0 && minutes < 0 && seconds < 0)
    ensures var c := CountdownOf(days, hours, minutes, seconds).cells;
      |c| == 4 && c[0].caption == "Days" && c[1].caption == "Hours" &&
      c[2].caption == "Minutes" && c[3].caption == "Seconds"
  {
  }

  /** Otherwise each cell shows its component clamped at 0. */
  lemma CountdownValues(days: int, hours: int, minutes: int, seconds: int)
    requires !(days < 0 && hours < 0 && minutes < 0 && seconds < 0)
    ensures var c := CountdownOf(days, hours, minutes, seconds).cells;
      |c| == 4 &&
      AllDigits(c[0].value) && AllDigits(c[1].value) && AllDigits(c[2].value) && AllDigits(c[3].value) &&
      DecimalValue(c[0].value) == (if days < 0 then 0 else days) &&
      DecimalValue(c[1].value) == (if hours < 0 then 0 else hours) &&
      DecimalValue(c[2].value) == (if minutes < 0 then 0 else minutes) &&
      DecimalValue(c[3].value) == (if seconds < 0 then 0 else seconds)
  {
    var c := CountdownOf(days, hours, minutes, seconds).cells;
    assert AllDigits(c[0].value) && DecimalValue(c[0].value) == (if days < 0 then 0 else days) by {
      assert c[0].value == TimeValue(days);
      CellShowsClamped(days);
    }
    assert AllDigits(c[1].value) && DecimalValue(c[1].value) == (if hours < 0 then 0 else hours) by {
      assert c[1].value == TimeValue(hours);
      CellShowsClamped(hours);
    }
    assert AllDigits(c[2].value) && DecimalValue(c[2].value) == (if minutes < 0 then 0 else minutes) by {
      assert c[2].value == TimeValue(minutes);
      CellShowsClamped(minutes);
    }
    assert AllDigits(c[3].value) && DecimalValue(c[3].value) == (if seconds < 0 then 0 else seconds) by {
      assert c[3].value == TimeValue(seconds);
      CellShowsClamped(seconds);
    }
  }

  lemma CellShowsClamped(value: int)
    ensures AllDigits(TimeValue(value))
    ensures DecimalValue(TimeValue(value)) == if value < 0 then 0 else value
  {
    TimeValueDisplay(value);
  }

  /** What `useCountdown(targetDate)` yields. */
  datatype Remaining = Remaining(days: int, hours: int, minutes: int, seconds: int)

  /** The countdown section holds a timer only when a ceremony date is given. */
  function CountdownSection(d: CustomData, useCountdown: string -> Remaining): Option<Countdown> {
    if Truthy(d.ceremonyDate) then
      var t := useCountdown(d.ceremonyDate.value);
      Some(CountdownOf(t.days, t.hours, t.minutes, t.seconds))
    else None
  }

  /** The timer appears exactly when the ceremony date is non-empty, counting towards that date. */
  lemma CountdownSectionRule(d: CustomData, useCountdown: string -> Remaining)
    ensures CountdownSection(d, useCountdown).Some? <==> Truthy(d.ceremonyDate)
    ensures Truthy(d.ceremonyDate) ==>
      var t := useCountdown(d.ceremonyDate.value);
      CountdownSection(d, useCountdown) == Some(CountdownOf(t.days, t.hours, t.minutes, t.seconds))
  {
  }

  /* ---------------- event cards ---------------- */

  const DateTbd := "Date TBD"

  /** `formatDate`; the locale formatting of a given date is a parameter. */
  function FormatDate(dateString: Option<string>, localeDate: string -> string): string {
    if !Truthy(dateString) then DateTbd else localeDate(dateString.value)
  }

  /** A missing or empty date reads "Date TBD"; any other is handed to the locale formatting. */
  lemma FormatDateFallback(dateString: Option<string>, localeDate: string -> string)
    ensures FormatDate(dateString, localeDate) == DateTbd <==>
      !Truthy(dateString) || localeDate(dateString.value) == DateTbd
    ensures Truthy(dateString) ==> FormatDate(dateString, localeDate) == localeDate(dateString.value)
  {
  }

  /** The search term of the maps link: `address || venue || ''`. */
  function MapsQuery(address: Option<string>, venue: Option<string>): string {
    OrDefault(Or(address, venue), "")
  }

  /** The address when there is one, else the venue when there is one, else empty. */
  lemma MapsQueryFallback(address: Option<string>, venue: Option<string>)
    ensures Truthy(address) ==> MapsQuery(address, venue) == address.value
    ensures !Truthy(address) && Truthy(venue) ==> MapsQuery(address, venue) == venue.value
    ensures MapsQuery(address, venue) == "" <==> !Truthy(address) && !Truthy(venue)
  {
    OrChain(address, venue, "");
  }

  const MapsSearchPrefix := "https://www.google.com/maps/search/?api=1&query="

  /** The "View Location" link; `encodeURIComponent` is a parameter. */
  function MapsUrl(address: Option<string>, venue: Option<string>, encode: string -> string): (url: string)
    ensures |MapsSearchPrefix| <= |url| && url[..|MapsSearchPrefix|] == MapsSearchPrefix
  {
    MapsSearchPrefix + encode(MapsQuery(address, venue))
  }

  /** What an `EventCard` shows. */
  datatype EventCard = EventCard(
    title: string, date: string, time: Option<string>,
    venue: Option<string>, address: Option<string>, mapsQuery: string)

  function CeremonyCard(d: CustomData, localeDate: string -> string): EventCard {
    EventCard("Ceremony", FormatDate(d.ceremonyDate, localeDate), d.ceremonyTime,
              d.ceremonyVenue, d.ceremonyAddress, MapsQuery(d.ceremonyAddress, d.ceremonyVenue))
  }

  function ReceptionCard(d: CustomData, localeDate: string -> string): EventCard {
    EventCard("Reception", FormatDate(Or(d.receptionDate, d.ceremonyDate), localeDate), d.receptionTime,
              d.receptionVenue, d.receptionAddress, MapsQuery(d.receptionAddress, d.receptionVenue))
  }

  /**
   * The reception card shows the reception date when there is one, else the
   * ceremony date, and "Date TBD" when neither is given, in which case the
   * ceremony card reads "Date TBD" as well.
   */
  lemma ReceptionDateFallback(d: CustomData, localeDate: string -> string)
    ensures Truthy(d.receptionDate) ==> ReceptionCard(d, localeDate).date == localeDate(d.receptionDate.value)
    ensures !Truthy(d.receptionDate) ==> ReceptionCard(d, localeDate).date == CeremonyCard(d, localeDate).date
    ensures !Truthy(d.receptionDate) && !Truthy(d.ceremonyDate) ==>
      ReceptionCard(d, localeDate).date == DateTbd && CeremonyCard(d, localeDate).date == DateTbd
  {
  }

  /* ---------------- cover and gift section ---------------- */

  /** The cover heading: `{brideFullName || 'Bride'} & {groomFullName || 'Groom'}`. */
  function CoverHeading(d: CustomData): string {
    OrDefault(d.brideFullName, "Bride") + " & " + OrDefault(d.groomFullName, "Groom")
  }

  /** Each side of the heading is the given name, or its default when the name is missing or empty. */
  lemma CoverHeadingNames(d: CustomData)
    ensures var bride := if Truthy(d.brideFullName) then d.brideFullName.value else "Bride";
      var groom := if Truthy(d.groomFullName) then d.groomFullName.value else "Groom";
      CoverHeading(d) == bride + " & " + groom && bride != "" && groom != ""
  {
  }

  const CopiedMessage := "Account number copied to clipboard!"

  /** The two effects of a copy. */
  datatype Effect = ClipboardWrite(text: string) | SuccessToast(message: string)

  /** `handleCopy(text)`: nothing for a missing or empty account number. */
  function HandleCopy(text: Option<string>): seq<Effect> {
    if !Truthy(text) then [] else [ClipboardWrite(text.value), SuccessToast(CopiedMessage)]
  }

  /**
   * A copy has an effect exactly when there is an account number; then the
   * clipboard receives that number, before the confirmation toast.
   */
  lemma CopyGuard(text: Option<string>)
    ensures HandleCopy(text) == [] <==> !Truthy(text)
    ensures Truthy(text) ==> |HandleCopy(text)| == 2 && HandleCopy(text)[0] == ClipboardWrite(text.value)
    ensures forall k :: 0 <= k < |HandleCopy(text)| && HandleCopy(text)[k].ClipboardWrite? ==>
      k == 0 && HandleCopy(text)[k].text == text.value
    ensures HandleCopy(text) != [] ==> HandleCopy(text)[|HandleCopy(text)| - 1] == SuccessToast(CopiedMessage)
  {
  }

  /* ---------------- the mounted template ---------------- */

  datatype Page = CoverPage(heading: string, coverPhoto: Option<string>) | MainPage

  /**
   * One mounted invitation. `isOpen` is the cover flag; the RSVP form exists
   * once the main page is drawn.
   */
  class WeddingInvitation {
    const invitationId: string
    const data: CustomData
    var isOpen: bool
    var rsvp: RsvpFormView.RsvpForm?

    /** The form is mounted exactly when the invitation is open, bound to this invitation. */
    ghost predicate Valid()
      reads this, rsvp
    {
      (isOpen <==> rsvp != null) && (rsvp != null ==> rsvp.invitationId == invitationId && rsvp.Valid())
    }

    function CurrentPage(): Page
      reads this
    {
      if !isOpen then CoverPage(CoverHeading(data), data.coverPhoto) else MainPage
    }

    /** `useState(false)`: the cover is shown first. */
    constructor(invitationId: string, data: CustomData)
      ensures this.invitationId == invitationId && this.data == data
      ensures !isOpen && rsvp == null
      ensures Valid()
      ensures CurrentPage() == CoverPage(CoverHeading(data), data.coverPhoto)
    {
      this.invitationId := invitationId;
      this.data := data;
      isOpen := false;
      rsvp := null;
    }

    /** `handleOpen`: sets the flag, mounting a fresh form the first time. */
    method HandleOpen()
      requires Valid()
      modifies this
      ensures isOpen && Valid()
      ensures CurrentPage() == MainPage
      ensures old(isOpen) ==> rsvp == old(rsvp)
      ensures !old(isOpen) ==> fresh(rsvp) && rsvp.state == RsvpFormView.InitialState && rsvp.stored == []
    {
      if !isOpen {
        isOpen := true;
        rsvp := new RsvpFormView.RsvpForm(invitationId);
      }
    }

    /** A submission of the mounted form; the flag stays set. */
    method Respond(entry: RsvpFormView.GuestEntry, reply: Actions.StoreReply) returns (toast: RsvpFormView.Toast)
      requires Valid() && isOpen && rsvp.CurrentScreen().FormScreen?
      modifies rsvp
      ensures isOpen && rsvp == old(rsvp) && Valid()
      ensures rsvp.state == Actions.SubmitRsvp(RsvpFormView.FormDataOf(invitationId, entry), reply).state
      ensures rsvp.stored == old(rsvp.stored) + Actions.Stored(Actions.SubmitRsvp(RsvpFormView.FormDataOf(invitationId, entry), reply), reply)
      ensures toast == RsvpFormView.ToastFor(rsvp.state.message)
    {
      toast := rsvp.Submit(entry, reply);
    }
  }
}
