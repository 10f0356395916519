/** The field checks shared by `createNews` and `updateNews`: every check
    runs, and every failing field gets its own entry in the error map. */
module Validation {
  import opened JsValues
  import opened Text
  import opened Markup
  import opened Tags

  datatype Field = Name | Date | Title | Tag | Description | Image

  /** The message stored under each failing field. */
  function Message(f: Field): string {
    match f
    case Name => "Name is required"
    case Date => "Date is required"
    case Title => "Title is required"
    case Tag => "At least one tag is required"
    case Description => "Description is required"
    case Image => "Image is required"
  }

  /** The body fields of a create or update request. */
  datatype Payload = Payload(name: Value, date: Value, title: Value, tag: Value, description: Value)

  /** The negation of `!v || typeof v !== "string" || !v.trim()`: a string
      with a character that is not whitespace. */
  predicate RequiredText(v: Value)
    ensures RequiredText(v) <==> v.Str? && !AllSpace(v.s)
  {
    if v.Str? then
      TrimBlank(v.s);
      Truthy(v) && Trim(v.s) != ""
    else false
  }

  /** `v.length` of a truthy value: a string's or an array's length, an
      object's own `length` property, and undefined (None) for numbers and
      `true`. */
  function LengthProperty(v: Value): Option<Value> {
    match v
    case Str(s) => Some(Num(|s|))
    case Arr(elems) => Some(Num(|elems|))
    case Obj(length) => length
    case _ => None
  }

  /** The negation of `!parsedTags || parsedTags.length === 0`. Of the truthy
      values only an empty array and an object whose `length` is the number
      0 fail: a truthy string is not empty, and numbers and `true` have no
      length. */
  predicate HasTags(parsed: Value)
    ensures HasTags(parsed) <==>
      && Truthy(parsed)
      && !(parsed.Arr? && parsed.elems == [])
      && !(parsed.Obj? && parsed.length == Some(Num(0)))
  {
    Truthy(parsed) && LengthProperty(parsed) != Some(Num(0))
  }

  /** `description ? String(description).replace(/<[^>]+>/g, "").trim() : ""`:
      empty exactly when the description is falsy or nothing but whitespace
      is left once every `<[^>]+>` span is removed. */
  function DescriptionText(v: Value): (r: string)
    ensures r != "" <==> Truthy(v) && !AllSpace(StripMarkup(StringOf(v)))
  {
    if Truthy(v) then
      TrimBlank(StripMarkup(StringOf(v)));
      Trim(StripMarkup(StringOf(v)))
    else ""
  }

  /** The five checks that create and update share. */
  const SharedFields: set<Field> := {Name, Date, Title, Tag, Description}

  predicate SharedFieldOk(f: Field, p: Payload, parse: JsonParse)
    requires f in SharedFields
  {
    match f
    case Name => RequiredText(p.name)
    case Date => Truthy(p.date)
    case Title => RequiredText(p.title)
    case Tag => HasTags(ParseTags(p.tag, parse))
    case Description => DescriptionText(p.description) != ""
  }

  /** `{f}` when the check of `f` failed, `{}` when it passed. */
  function FailedIf(ok: bool, f: Field): set<Field> {
    if ok then {} else {f}
  }

  /** The shared fields whose check fails. */
  function SharedFailures(p: Payload, parse: JsonParse): set<Field> {
    FailedIf(RequiredText(p.name), Name)
    + FailedIf(Truthy(p.date), Date)
    + FailedIf(RequiredText(p.title), Title)
    + FailedIf(HasTags(ParseTags(p.tag, parse)), Tag)
    + FailedIf(DescriptionText(p.description) != "", Description)
  }

  /** A shared field fails exactly when its own check fails; no check hides
      another. */
  lemma SharedFailuresExact(p: Payload, parse: JsonParse, f: Field)
    ensures f in SharedFailures(p, parse) <==> f in SharedFields && !SharedFieldOk(f, p, parse)
  {
    var a := FailedIf(RequiredText(p.name), Name);
    var b := FailedIf(Truthy(p.date), Date);
    var c := FailedIf(RequiredText(p.title), Title);
    var d := FailedIf(HasTags(ParseTags(p.tag, parse)), Tag);
    var e := FailedIf(DescriptionText(p.description) != "", Description);
    assert SharedFailures(p, parse) == a + b + c + d + e;
    match f
    case Name => assert f !in b + c + d + e;
    case Date => assert f !in a + c + d + e;
    case Title => assert f !in a + b + d + e;
    case Tag => assert f !in a + b + c + e;
    case Description => assert f !in a + b + c + d;
    case Image => assert f !in a + b + c + d + e;
  }

  /** The fields a create request fails on: the shared ones, and `image`
      when no file was uploaded. */
  function CreateFailures(p: Payload, image: Option<string>, parse: JsonParse): set<Field> {
    SharedFailures(p, parse) + (if HasFile(image) then {} else {Image})
  }

  /** An error map in the shape the handlers send: each key maps to its
      field's message. */
  predicate WellFormedErrors(errors: map<Field, string>) {
    forall f :: f in errors ==> errors[f] == Message(f)
  }

  /** One check's `if (!ok) errors.field = message`. */
  method Record(errors: map<Field, string>, ok: bool, f: Field) returns (out: map<Field, string>)
    requires WellFormedErrors(errors)
    ensures out.Keys == errors.Keys + FailedIf(ok, f)
    ensures WellFormedErrors(out)
  {
    out := errors;
    if !ok {
      out := out[f := Message(f)];
    }
  }

  /** Runs the five shared checks one after another, without stopping at a
      failure, and records each failing field. */
  method CheckSharedFields(p: Payload, parse: JsonParse) returns (errors: map<Field, string>)
    ensures errors.Keys == SharedFailures(p, parse)
    ensures WellFormedErrors(errors)
  {
    errors := map[];
    errors := Record(errors, RequiredText(p.name), Name);
    errors := Record(errors, Truthy(p.date), Date);
    errors := Record(errors, RequiredText(p.title), Title);
    var parsedTags := ParseTags(p.tag, parse);
    errors := Record(errors, HasTags(parsedTags), Tag);
    var descText := DescriptionText(p.description);
    errors := Record(errors, descText != "", Description);
  }

  /** `"<p>d</p>"` is a description: the text between the tags is kept. */
  lemma DescriptionWithText()
    ensures DescriptionText(Str("<p>d</p>")) == "d"
  {
    StripParagraph();
    TrimOneChar('d');
  }

  /** Markup with only whitespace inside is not a description. */
  lemma DescriptionOnlyMarkup()
    ensures DescriptionText(Str("<p> </p>")) == ""
  {
    assert MatchesTag("<p>", 3);
    assert MatchesTag("</p>", 4);
    StripDropsLeadingTag("<p>", " </p>");
    assert "<p> </p>" == "<p>" + " </p>";
    StripKeepsPlainPrefix(" ", "</p>");
    assert " </p>" == " " + "</p>";
    StripDropsLeadingTag("</p>", "");
    assert "</p>" == "</p>" + "";
    assert AllSpace(" ");
  }

  /** The tag check on a falsy tag or an array: a falsy tag fails, and an
      array passes exactly when it is not empty. */
  lemma TagRule(tag: Value, parse: JsonParse)
    ensures !Truthy(tag) ==> !HasTags(ParseTags(tag, parse))
    ensures tag.Arr? ==> (HasTags(ParseTags(tag, parse)) <==> tag.elems != [])
  {
  }

  /** The tag check on text that is not JSON: it passes exactly when some
      comma-separated piece of the text is not blank. */
  lemma TagRuleText(tag: Value, parse: JsonParse)
    requires Truthy(tag) && !tag.Arr? && parse(StringOf(tag)).None?
    ensures var pieces := Split(StringOf(tag), ',');
      HasTags(ParseTags(tag, parse)) <==> exists k :: 0 <= k < |pieces| && !AllSpace(pieces[k])
  {
    var tags := SplitTags(StringOf(tag));
    ParseTagsFallback(tag, parse);
    SplitTagsNone(StringOf(tag));
    assert |StrArray(tags).elems| == |tags|;
  }

  /** A JSON scalar that is truthy passes the tag check: `"5"` parses to the
      number 5, which has no length. */
  lemma ScalarTagPasses(parse: JsonParse)
    requires parse("5") == Some(Num(5))
    ensures HasTags(ParseTags(Str("5"), parse))
  {
  }

  /** Text that parses to a falsy JSON value (`null`, `0`, `false`, `""`)
      or to `[]` fails the tag check. */
  lemma EmptyJsonFails(text: string, parse: JsonParse)
    requires text != "" && parse(text).Some?
    requires !Truthy(parse(text).value) || parse(text).value == Arr([])
    ensures !HasTags(ParseTags(Str(text), parse))
  {
  }

  /** Text that parses to an object whose `length` is 0, such as
      `{"length":0}`, fails the tag check like an empty array. */
  lemma ZeroLengthObjectFails(text: string, parse: JsonParse)
    requires text != "" && parse(text) == Some(Obj(Some(Num(0))))
    ensures !HasTags(ParseTags(Str(text), parse))
  {
  }

  /** Validation is exhaustive: a create request with nothing in it fails
      on all six fields at once. */
  lemma EmptyCreateFailsEverywhere(parse: JsonParse)
    ensures CreateFailures(Payload(Undefined, Undefined, Undefined, Undefined, Undefined), None, parse)
      == {Name, Date, Title, Tag, Description, Image}
  {
    var p := Payload(Undefined, Undefined, Undefined, Undefined, Undefined);
    assert !SharedFieldOk(Name, p, parse);
    assert !SharedFieldOk(Date, p, parse);
    assert !SharedFieldOk(Title, p, parse);
    assert !SharedFieldOk(Tag, p, parse);
    assert !SharedFieldOk(Description, p, parse);
  }

  /** The error map of a create request holds the shared failures and,
      when there is no file, the image failure too. */
  method CheckCreateFields(p: Payload, image: Option<string>, parse: JsonParse)
    returns (errors: map<Field, string>)
    ensures errors.Keys == CreateFailures(p, image, parse)
    ensures WellFormedErrors(errors)
  {
    errors := CheckSharedFields(p, parse);
    errors := Record(errors, HasFile(image), Image);
  }
}
