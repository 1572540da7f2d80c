/**
 * The contact page: a form of four text fields whose submission navigates
 * to a `mailto:` URI (RFC 6068) addressed to the blog's author, with the
 * subject and a composed message body percent-encoded as query values.
 */
module ContactComponent {
  import opened Common
  import opened Text
  import opened Uri

  /** The fixed recipient. */
  const Address: string := "cmacharia482@gmail.com"

  /** The four fields of the form, each an `<input required>` or a
      `<textarea required>`. */
  const Fields: set<string> := {"name", "email", "subject", "message"}

  /** The mail body the form composes from its fields: the lines
      `Name: …`, `Email: …`, an empty line and `Message: …`. */
  function MessageBody(name: string, email: string, message: string): string {
    ("Name: " + name) + "\n" + ("Email: " + email) + "\n" + "\n" + ("Message: " + message)
  }

  /** The URI the submit handler navigates to: the scheme, the address,
      and the query `subject=<encoded subject>&body=<encoded body>`. */
  function MailtoLink(subject: string, body: string): string {
    "mailto:" + Address + "?" + Query(subject, body)
  }

  /** The query of the link: the encoded subject and body, in order. */
  function Query(subject: string, body: string): string {
    Field("subject", subject) + "&" + Field("body", body)
  }

  /** One header field `name=<encoded value>`. */
  function Field(name: string, value: string): string {
    name + "=" + EncodeURIComponent(value)
  }

  /** What a mail client reads from a `mailto:` URI: the recipient and the
      header fields, in order. */
  datatype Mailto = Mailto(to: string, headers: seq<(string, string)>)

  /** One `hfname=hfvalue` pair, its value percent-decoded. */
  function ParseField(f: string): Option<(string, string)> {
    match IndexOf(f, "=")
    case None => None
    case Some(j) =>
      match Decode(f[j + 1..])
      case None => None
      case Some(v) => Some((f[..j], v))
  }

  function ParseFields(fs: seq<string>): Option<seq<(string, string)>> {
    if fs == [] then Some([])
    else
      match ParseField(fs[0])
      case None => None
      case Some(h) =>
        match ParseFields(fs[1..])
        case None => None
        case Some(rest) => Some([h] + rest)
  }

  /** A `mailto:` URI as section 2 of RFC 6068 lays it out: the address up to
      the first `?`, then `&`-separated header fields. */
  function ParseMailto(href: string): Option<Mailto> {
    if !StartsWith(href, "mailto:") then None else ParseAddressAndQuery(href[7..])
  }

  /** What follows the scheme: the address, then an optional query. */
  function ParseAddressAndQuery(rest: string): Option<Mailto> {
    match IndexOf(rest, "?")
    case None => Some(Mailto(rest, []))
    case Some(i) =>
      match ParseFields(Split(rest[i + 1..], '&'))
      case None => None
      case Some(hs) => Some(Mailto(rest[..i], hs))
  }

  /** The browser submits only when no required field is empty; the submit
      handler then yields the link. `None` means the form is not submitted. */
  function Submission(data: map<string, string>): Option<string>
    requires Fields <= data.Keys
  {
    if data["name"] == "" || data["email"] == "" || data["subject"] == "" || data["message"] == ""
    then None
    else Some(MailtoLink(data["subject"], MessageBody(data["name"], data["email"], data["message"])))
  }

  /** An encoded value holds no `&`, so it cannot end its header field early. */
  lemma NoAmpersand(s: string)
    ensures '&' !in EncodeURIComponent(s)
  {
  }

  lemma ParseEncodedField(name: string, value: string)
    requires '=' !in name
    ensures ParseField(Field(name, value)) == Some((name, value))
  {
    var e := EncodeURIComponent(value);
    var f := name + "=" + e;
    assert f == name + ['='] + e;
    FirstCharAt(name, '=', e);
    assert f[|name| + 1..] == e;
    assert f[..|name|] == name;
    DecodeEncode(value);
  }

  lemma ParsePair(f1: string, f2: string, h1: (string, string), h2: (string, string))
    requires ParseField(f1) == Some(h1) && ParseField(f2) == Some(h2)
    ensures ParseFields([f1, f2]) == Some([h1, h2])
  {
    assert ParseField([f2][0]) == Some(h2);
    assert [f2][1..] == [];
    assert ParseFields([f2][1..]) == Some([]);
    assert [h2] + [] == [h2];
    assert ParseField([f1, f2][0]) == Some(h1);
    assert [f1, f2][1..] == [f2];
    assert ParseFields([f1, f2][1..]) == Some([h2]);
    assert [h1] + [h2] == [h1, h2];
  }

  lemma SplitPair(f1: string, f2: string)
    requires '&' !in f1 && '&' !in f2
    ensures Split(f1 + ['&'] + f2, '&') == [f1, f2]
  {
    SplitAfter(f1, f2, '&');
    SplitWithout(f2, '&');
  }

  lemma EncodedFieldFree(name: string, value: string)
    requires '&' !in name
    ensures '&' !in Field(name, value)
  {
    NoAmpersand(value);
  }

  lemma ParseQuery(subject: string, body: string)
    ensures ParseFields(Split(Query(subject, body), '&')) == Some([("subject", subject), ("body", body)])
  {
    var f1, f2 := Field("subject", subject), Field("body", body);
    EncodedFieldFree("subject", subject);
    EncodedFieldFree("body", body);
    ParseEncodedField("subject", subject);
    ParseEncodedField("body", body);
    SplitPair(f1, f2);
    ParsePair(f1, f2, ("subject", subject), ("body", body));
  }

  lemma AddressThenQuery(to: string, query: string, hs: seq<(string, string)>)
    requires '?' !in to && ParseFields(Split(query, '&')) == Some(hs)
    ensures ParseAddressAndQuery(to + "?" + query) == Some(Mailto(to, hs))
  {
    var rest := to + ['?'] + query;
    assert to + "?" + query == rest;
    FirstCharAt(to, '?', query);
    assert rest[..|to|] == to;
    assert rest[|to| + 1..] == query;
  }

  /** The address holds no `?`, so the query starts right after it. */
  lemma AddressIsPlain()
    ensures '?' !in Address
  {
  }

  lemma SchemeStripped(rest: string)
    ensures ParseMailto("mailto:" + rest) == ParseAddressAndQuery(rest)
  {
    var href := "mailto:" + rest;
    assert href[..7] == "mailto:" && href[7..] == rest;
  }

  /** A mail client reading the link sees the author's address, then the
      subject and the body exactly as typed. */
  lemma MailtoRoundTrip(subject: string, body: string)
    ensures ParseMailto(MailtoLink(subject, body))
      == Some(Mailto(Address, [("subject", subject), ("body", body)]))
  {
    var rest := Address + "?" + Query(subject, body);
    assert MailtoLink(subject, body) == "mailto:" + rest;
    SchemeStripped(rest);
    ParseQuery(subject, body);
    AddressIsPlain();
    AddressThenQuery(Address, Query(subject, body), [("subject", subject), ("body", body)]);
  }

  /** The body is four lines: the name, the e-mail address, an empty line,
      and the message (which may itself run over several lines). */
  lemma BodyLines(name: string, email: string, message: string)
    requires '\n' !in name && '\n' !in email
    ensures Split(MessageBody(name, email, message), '\n')
      == ["Name: " + name, "Email: " + email, ""] + Split("Message: " + message, '\n')
  {
    var l1, l2, l4 := "Name: " + name, "Email: " + email, "Message: " + message;
    BodyShape(name, email, message);
    SplitLines(l1, l2, l4);
  }

  /** The composed body is its lines joined by line breaks. */
  lemma BodyShape(name: string, email: string, message: string)
    ensures MessageBody(name, email, message)
      == ("Name: " + name) + ['\n'] + (("Email: " + email) + ['\n'] + ([] + ['\n'] + ("Message: " + message)))
  {
  }

  /** Splitting two break-free lines, an empty line and a last part. */
  lemma SplitLines(l1: string, l2: string, l4: string)
    requires '\n' !in l1 && '\n' !in l2
    ensures Split(l1 + ['\n'] + (l2 + ['\n'] + ([] + ['\n'] + l4)), '\n')
      == [l1, l2, ""] + Split(l4, '\n')
  {
    var t3 := [] + ['\n'] + l4;
    var t2 := l2 + ['\n'] + t3;
    var r4 := Split(l4, '\n');
    SplitAfter([], l4, '\n');
    var r3 := [[]] + r4;
    SplitAfter(l2, t3, '\n');
    var r2 := [l2] + r3;
    SplitAfter(l1, t2, '\n');
    assert Split(l1 + ['\n'] + t2, '\n') == [l1] + r2;
    assert [l1] + r2 == [l1, l2, ""] + r4;
  }

  /** The browser lets the form submit exactly when every field is filled in. */
  lemma SubmittedIffFilled(data: map<string, string>)
    requires Fields <= data.Keys
    ensures Submission(data).Some? <==> (forall f :: f in Fields ==> data[f] != "")
  {
    assert "name" in Fields && "email" in Fields && "subject" in Fields && "message" in Fields;
  }

  /** A submission happens exactly when every field is filled in, and its
      link carries the subject and the composed body. */
  lemma SubmissionCorrect(data: map<string, string>)
    requires Fields <= data.Keys
    ensures Submission(data).Some? <==> (forall f :: f in Fields ==> data[f] != "")
    ensures Submission(data).Some? ==>
      ParseMailto(Submission(data).value) == Some(Mailto(Address, [
        ("subject", data["subject"]),
        ("body", MessageBody(data["name"], data["email"], data["message"]))]))
  {
    SubmittedIffFilled(data);
    if Submission(data).Some? {
      var body := MessageBody(data["name"], data["email"], data["message"]);
      assert Submission(data).value == MailtoLink(data["subject"], body);
      MailtoRoundTrip(data["subject"], body);
    }
  }

  /** The form's state, `formData`, as the component keeps it. */
  class ContactForm {
    var formData: map<string, string>

    predicate Valid()
      reads this
    {
      Fields <= formData.Keys
    }

    /** All four fields start empty. */
    constructor()
      ensures Valid()
      ensures formData == map["name" := "", "email" := "", "subject" := "", "message" := ""]
    {
      formData := map["name" := "", "email" := "", "subject" := "", "message" := ""];
    }

    /** `handleChange`: the field the event names takes the event's value;
        every other field keeps its value. */
    method HandleChange(name: string, value: string)
      requires Valid()
      modifies this
      ensures Valid()
      ensures formData == old(formData)[name := value]
      ensures forall f :: f in old(formData) && f != name ==> formData[f] == old(formData)[f]
    {
      formData := formData[name := value];
    }

    /** `handleSubmit`: the link the page navigates to, if the browser lets
        the form submit; the form's state is left as it is. */
    method HandleSubmit() returns (href: Option<string>)
      requires Valid()
      ensures href == Submission(formData)
      ensures href.Some? ==>
        ParseMailto(href.value) == Some(Mailto(Address, [
          ("subject", formData["subject"]),
          ("body", MessageBody(formData["name"], formData["email"], formData["message"]))]))
    {
      var name, email, subject, message :=
        formData["name"], formData["email"], formData["subject"], formData["message"];
      if name == "" || email == "" || subject == "" || message == "" {
        return None;
      }
      href := Some(MailtoLink(subject, MessageBody(name, email, message)));
      SubmissionCorrect(formData);
    }
  }
}
