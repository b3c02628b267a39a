/** `mailto:` URIs (section 2 of RFC 6068): the link the contact form builds
    (index.js:241-243) and a reader for the same syntax, which recovers the
    recipient and the header fields from a link. */
module Mailto {
  import opened Wrappers
  import opened Strings
  import opened UriComponent

  datatype Header = Header(name: string, value: string)

  /** A decoded `mailto:` URI: the recipient part and the header fields. */
  datatype MailtoUri = MailtoUri(to: string, headers: seq<Header>)

  /** `mailto:<to>?subject=<enc(subject)>&body=<enc(body)>`, each value passed
      through `encodeURIComponent`; the recipient is written as it is. */
  function Link(to: string, subject: string, body: string): string {
    "mailto:" + to + "?subject=" + Encode(subject) + "&body=" + Encode(body)
  }

  /** One `hfname=hfvalue` field, both halves percent-decoded. */
  function ParseHeader(field: string): Option<Header> {
    match IndexOf(field, '=')
    case None => None
    case Some(i) =>
      var name :- Decode(field[..i]);
      var value :- Decode(field[i + 1..]);
      Some(Header(name, value))
  }

  function ParseHeaders(fields: seq<string>): Option<seq<Header>> {
    if fields == [] then Some([])
    else
      match (ParseHeader(fields[0]), ParseHeaders(fields[1..]))
      case (Some(h), Some(rest)) => Some([h] + rest)
      case _ => None
  }

  /** Reads a `mailto:` URI: the recipient up to the first `?`, then the
      `&`-separated header fields. */
  function Parse(uri: string): Option<MailtoUri> {
    if |uri| < 7 || uri[..7] != "mailto:" then None
    else
      var rest := uri[7..];
      match IndexOf(rest, '?')
      case None =>
        var to :- Decode(rest);
        Some(MailtoUri(to, []))
      case Some(q) =>
        var to :- Decode(rest[..q]);
        var headers :- ParseHeaders(Split(rest[q + 1..], '&'));
        Some(MailtoUri(to, headers))
  }

  /** Encoded text holds no `&`, so it cannot end a header field early. */
  lemma NoDelimiters(s: string)
    ensures '&' !in Encode(s) && '=' !in Encode(s) && '?' !in Encode(s)
  {
    EncodeAlphabet(s);
  }

  /** A field `name=<ev>` whose name has no `=` or `%` reads back as that
      name and the decoding of `ev`. */
  lemma ParseField(name: string, ev: string, value: string)
    requires '=' !in name && '%' !in name
    requires Decode(ev) == Some(value)
    ensures ParseHeader(name + "=" + ev) == Some(Header(name, value))
  {
    var field := name + "=" + ev;
    assert field == name + ['='] + ev;
    IndexOfAfter(name, '=', ev);
    assert field[..|name|] == name;
    assert field[|name| + 1..] == ev;
    DecodePlain(name);
  }

  /** A query made of two fields without `&` splits into those fields. */
  lemma SplitQuery(es: string, eb: string)
    requires '&' !in es && '&' !in eb
    ensures Split("subject=" + es + "&body=" + eb, '&') == ["subject=" + es, "body=" + eb]
  {
    SplitTwo("subject=" + es, '&', "body=" + eb);
    assert "subject=" + es + "&body=" + eb == ("subject=" + es) + ['&'] + ("body=" + eb);
  }

  lemma ParseTwoHeaders(f1: string, f2: string, h1: Header, h2: Header)
    requires ParseHeader(f1) == Some(h1) && ParseHeader(f2) == Some(h2)
    ensures ParseHeaders([f1, f2]) == Some([h1, h2])
  {
    var one, two := [f2], [f1, f2];
    assert one[1..] == [];
    assert [h2] + [] == [h2];
    assert ParseHeaders(one) == Some([h2]);
    assert two[1..] == one;
    assert [h1] + [h2] == [h1, h2];
  }

  /** A URI `mailto:<to>?<query>` whose recipient holds no `?` and no `%`
      reads as that recipient and the header fields of the query. */
  lemma ParseWithQuery(to: string, query: string, hs: seq<Header>)
    requires '?' !in to && '%' !in to
    requires ParseHeaders(Split(query, '&')) == Some(hs)
    ensures Parse("mailto:" + to + "?" + query) == Some(MailtoUri(to, hs))
  {
    var rest := to + ['?'] + query;
    var uri := "mailto:" + to + "?" + query;
    assert uri == "mailto:" + rest;
    assert uri[..7] == "mailto:";
    assert uri[7..] == rest;
    IndexOfAfter(to, '?', query);
    assert rest[..|to|] == to;
    assert rest[|to| + 1..] == query;
    DecodePlain(to);
  }

  /** A query `subject=<es>&body=<eb>` whose values hold no `&` reads back
      as the decoded subject and body fields. */
  lemma QueryHeaders(es: string, eb: string, subject: string, body: string)
    requires '&' !in es && '&' !in eb
    requires Decode(es) == Some(subject) && Decode(eb) == Some(body)
    ensures ParseHeaders(Split("subject=" + es + "&body=" + eb, '&'))
         == Some([Header("subject", subject), Header("body", body)])
  {
    SplitQuery(es, eb);
    ParseField("subject", es, subject);
    assert "subject" + "=" == "subject=";
    ParseField("body", eb, body);
    assert "body" + "=" == "body=";
    ParseTwoHeaders("subject=" + es, "body=" + eb, Header("subject", subject), Header("body", body));
  }

  /** Reading the link the contact form builds gives back its recipient, its
      subject and its body, in that order. */
  lemma ParseLink(to: string, subject: string, body: string)
    requires '?' !in to && '%' !in to
    ensures Parse(Link(to, subject, body)) == Some(MailtoUri(to, [Header("subject", subject), Header("body", body)]))
  {
    NoDelimiters(subject);
    NoDelimiters(body);
    DecodeEncode(subject);
    DecodeEncode(body);
    QueryHeaders(Encode(subject), Encode(body), subject, body);
    ParseWithQuery(to, "subject=" + Encode(subject) + "&body=" + Encode(body),
                   [Header("subject", subject), Header("body", body)]);
    LinkShape(to, subject, body);
  }

  lemma LinkShape(to: string, subject: string, body: string)
    ensures Link(to, subject, body) == "mailto:" + to + "?" + ("subject=" + Encode(subject) + "&body=" + Encode(body))
  {
  }
}
