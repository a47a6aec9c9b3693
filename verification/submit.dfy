/** The field check of the add/update button handler (calendar.js lines 94-106): the form's
    values are read, the text fields trimmed, and the submission is refused when any field
    is missing. */
module Submit {
  import opened Wrappers
  import opened Text

  /** The five form fields as the handler reads them: the numeric fields after unary `+`
      (a value that converts to 0 or NaN is represented by 0), the text fields untrimmed. */
  datatype Form = Form(day: int, month: int, year: int, time: string, title: string)

  /** The record sent to the store: `{ title, day, month, year, time }`. */
  datatype ReminderData = ReminderData(title: string, day: int, month: int, year: int, time: string)

  /** `!day || !month || !year || !time || !title` after trimming: None when the handler shows
      the "Missing Fields" popup and returns; otherwise the record it builds. */
  function ReadForm(f: Form): (r: Option<ReminderData>)
    ensures r.None? <==> (f.day == 0 || f.month == 0 || f.year == 0
                          || AllWhitespace(f.time) || AllWhitespace(f.title))
    ensures r.Some? ==> r.value == ReminderData(Trim(f.title), f.day, f.month, f.year, Trim(f.time))
    ensures r.Some? ==> r.value.title != [] && !IsWhitespace(r.value.title[0])
                        && r.value.time != [] && !IsWhitespace(r.value.time[0])
  {
    var time := Trim(f.time);
    var title := Trim(f.title);
    TrimEmptyIff(f.time);
    TrimEmptyIff(f.title);
    TrimSlice(f.time);
    TrimSlice(f.title);
    if f.day == 0 || f.month == 0 || f.year == 0 || time == [] || title == [] then None
    else Some(ReminderData(title, f.day, f.month, f.year, time))
  }

  /** Submitting the record the handler built, as a form again, builds the same record:
      validation accepts its own output and trimming has nothing left to remove. */
  lemma {:induction false} ReadFormStable(f: Form)
    requires ReadForm(f).Some?
    ensures var d := ReadForm(f).value;
      ReadForm(Form(d.day, d.month, d.year, d.time, d.title)) == Some(d)
  {
    TrimIdempotent(f.time);
    TrimIdempotent(f.title);
  }
}
