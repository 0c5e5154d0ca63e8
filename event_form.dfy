/**
 * The client's event form: per-field edits, the check on submit, trimming,
 * the placeholder event handed to the list, and the reset afterwards.
 */
module EventForm {
  import opened Text
  import opened Events
  import opened EventStore

  /** `formData`: the four inputs as typed. */
  datatype FormData = FormData(title: string, date: string, time: string, notes: string)

  const EmptyForm := FormData("", "", "", "")

  datatype Field = Title | Date | Time | Notes

  /**
   * The event handed to `handleEventCreated`. Its `category` is the string
   * "uncategorized", outside the three labels, so it is kept as text here.
   */
  datatype Placeholder = Placeholder(
    id: string,
    title: string,
    date: string,
    time: string,
    notes: string,
    archived: bool,
    category: string)

  /** What a submit does: show the error toast, or hand the placeholder on. */
  datatype Submission = Rejected(toast: string) | Submitted(event: Placeholder)

  const RequiredToast := "Please fill in all required fields."
  const TempIdPrefix := "temp-id-"
  const PlaceholderCategory := "uncategorized"

  function FieldOf(f: FormData, field: Field): string {
    match field
    case Title => f.title
    case Date => f.date
    case Time => f.time
    case Notes => f.notes
  }

  /** `{ ...prev, [field]: value }`. */
  function WithField(f: FormData, field: Field, value: string): (r: FormData)
    ensures FieldOf(r, field) == value
    ensures forall g :: g != field ==> FieldOf(r, g) == FieldOf(f, g)
  {
    match field
    case Title => f.(title := value)
    case Date => f.(date := value)
    case Time => f.(time := value)
    case Notes => f.(notes := value)
  }

  /**
   * The submit check passes: the trimmed title is not empty, that is, the
   * title has a non-whitespace character, and date and time are filled in.
   */
  predicate Accepts(f: FormData): (r: bool)
    ensures r <==> !AllSpace(f.title) && f.date != "" && f.time != ""
  {
    Trim(f.title) != "" && f.date != "" && f.time != ""
  }

  function Digit(d: nat): (c: char)
    requires d < 10
    ensures '0' <= c <= '9' && c as int - '0' as int == d
  {
    ('0' as int + d) as char
  }

  /** The number a string of decimal digits denotes. */
  ghost function DigitsValue(r: string): int {
    if r == [] then 0 else 10 * DigitsValue(r[..|r| - 1]) + (r[|r| - 1] as int - '0' as int)
  }

  /**
   * The decimal numeral of `n`, as `"" + Date.now()` writes it: digits only,
   * denoting `n`, with no leading zero unless `n` is 0.
   */
  function Decimal(n: nat): (r: string)
    ensures r != []
    ensures forall i :: 0 <= i < |r| ==> '0' <= r[i] <= '9'
    ensures DigitsValue(r) == n
    ensures r[0] == '0' ==> r == "0"
  {
    if n < 10 then [Digit(n)]
    else
      var r := Decimal(n / 10) + [Digit(n % 10)];
      assert r[..|r| - 1] == Decimal(n / 10);
      r
  }

  /** The id given to the placeholder built at time `now`. */
  function TempId(now: nat): (id: string)
    ensures TempIdPrefix <= id && |id| > |TempIdPrefix|
    ensures forall i :: |TempIdPrefix| <= i < |id| ==> '0' <= id[i] <= '9'
  {
    TempIdPrefix + Decimal(now)
  }

  /**
   * The trimmed event with the temporary `id`, not archived and not yet
   * categorised. For an accepted form its title is non-empty; title and notes
   * neither start nor end with whitespace.
   */
  function PlaceholderFor(f: FormData, id: string): (p: Placeholder)
    ensures p.id == id && p.date == f.date && p.time == f.time
    ensures !p.archived && p.category == PlaceholderCategory
    ensures p.title == Trim(f.title) && p.notes == Trim(f.notes)
    ensures Accepts(f) ==> p.title != [] && !IsSpace(p.title[0]) && !IsSpace(p.title[|p.title| - 1])
    ensures p.notes == [] || (!IsSpace(p.notes[0]) && !IsSpace(p.notes[|p.notes| - 1]))
  {
    Placeholder(id, Trim(f.title), f.date, f.time, Trim(f.notes), false, PlaceholderCategory)
  }

  /** The JSON body `createEvent` posts for a placeholder: every field is sent. */
  function BodyOf(p: Placeholder): CreateBody {
    CreateBody(Some(p.title), Some(p.date), Some(p.time), Some(p.notes), Some(p.id), Some(p.archived), Some(p.category))
  }

  /** Whatever the form accepts, the server's check accepts too. */
  lemma AcceptedFormPassesServer(f: FormData, id: string)
    requires Accepts(f)
    ensures !Rejects(BodyOf(PlaceholderFor(f, id)))
    ensures BodyOf(PlaceholderFor(f, id)).title == Some(Trim(f.title))
  {
    var t := Trim(f.title);
    assert BodyOf(PlaceholderFor(f, id)).title == Some(t);
  }

  /**
   * The client is stricter than the server: a title of whitespace only is
   * refused by the form, yet the same title posted directly passes the
   * server's check.
   */
  lemma BlankTitleOnlyClientRejects(f: FormData, body: CreateBody)
    requires f.title != "" && AllSpace(f.title) && f.date != "" && f.time != ""
    requires body.title == Some(f.title) && body.date == Some(f.date) && body.time == Some(f.time)
    ensures !Accepts(f)
    ensures !Rejects(body)
  {
  }

  /** The form component's state. */
  class Form {
    var data: FormData

    constructor ()
      ensures data == EmptyForm
    {
      data := EmptyForm;
    }

    /** `handleChange`: only the named field takes the new value. */
    method HandleChange(field: Field, value: string)
      modifies this
      ensures data == WithField(old(data), field, value)
      ensures FieldOf(data, field) == value
      ensures forall g :: g != field ==> FieldOf(data, g) == FieldOf(old(data), g)
    {
      data := WithField(data, field, value);
    }

    /**
     * `handleSubmit` at time `now`: a rejected form shows the toast and keeps
     * its contents; an accepted one hands on the trimmed placeholder event and
     * clears all four fields.
     */
    method HandleSubmit(now: nat) returns (outcome: Submission)
      modifies this
      ensures !Accepts(old(data)) ==> outcome == Rejected(RequiredToast) && data == old(data)
      ensures Accepts(old(data)) ==> outcome == Submitted(PlaceholderFor(old(data), TempId(now))) && data == EmptyForm
      ensures Accepts(old(data)) ==>
        var e := outcome.event;
        && e.title == Trim(old(data).title) && e.title != ""
        && e.notes == Trim(old(data).notes)
        && e.date == old(data).date && e.time == old(data).time
        && !e.archived
        && TempIdPrefix <= e.id
        && e.category == PlaceholderCategory
    {
      if !Accepts(data) {
        return Rejected(RequiredToast);
      }
      var placeholder := PlaceholderFor(data, TempId(now));
      data := EmptyForm;
      outcome := Submitted(placeholder);
    }
  }
}
