/**
 * The reference extractor run on a loaded encyclopedia article: one record
 * (url, type, title) per reference-text element of the page's reference list.
 *
 * The page is given abstractly: each reference-text element is a `Reference`
 * that already carries what the extractor's DOM queries would find in it.
 * The record's `type` field is called `kind` here, `type` being a keyword.
 */
module References {
  import opened Options
  import opened CitationClass

  /** An `<a>` element: its resolved `href` and its `textContent`. */
  datatype Anchor = Anchor(href: string, text: string)

  /**
   * The first `<cite>` element of a reference: its `className` and the
   * first `a.external.text` anchor inside it, if any.
   */
  datatype Cite = Cite(className: string, externalLink: Option<Anchor>)

  /**
   * One `.reference-text` element: its `textContent`, the first `<a>`
   * anywhere inside it, and its first `<cite>`, if any.
   */
  datatype Reference = Reference(text: string, firstAnchor: Option<Anchor>, cite: Option<Cite>)

  /** The record built for one reference; `None` is JavaScript `null`. */
  datatype ReferenceRecord = ReferenceRecord(url: Option<string>, kind: Option<string>, title: Option<string>)

  /**
   * The link the extractor reads: the cite's external-text anchor when the
   * reference has a cite (even when that anchor is missing), otherwise the
   * reference's first anchor.
   */
  function SelectLink(ref: Reference): (link: Option<Anchor>)
    ensures ref.cite.Some? ==> link == ref.cite.value.externalLink
    ensures ref.cite.None? ==> link == ref.firstAnchor
  {
    match ref.cite
    case Some(c) => c.externalLink
    case None => ref.firstAnchor
  }

  /**
   * The record for one reference. A link gives the url and, when its text is
   * non-empty (truthy), the title; without a link the title is the whole
   * reference text. The type comes only from a cite's class string.
   */
  function BuildRecord(ref: Reference): (r: ReferenceRecord)
    ensures r.url.Some? <==> SelectLink(ref).Some?
    ensures SelectLink(ref).Some? ==> r.url == Some(SelectLink(ref).value.href)
    ensures SelectLink(ref).Some? && SelectLink(ref).value.text != "" ==>
      r.title == Some(SelectLink(ref).value.text)
    ensures SelectLink(ref).None? ==> r.title == Some(ref.text)
    ensures r.title.None? <==> SelectLink(ref).Some? && SelectLink(ref).value.text == ""
    ensures ref.cite.None? ==> r.kind.None?
    ensures ref.cite.Some? ==> r.kind == CitationType(ref.cite.value.className)
    ensures r.kind.Some? ==> 0 < |r.kind.value| && IsWord(r.kind.value)
  {
    var link := SelectLink(ref);
    var url := if link.Some? then Some(link.value.href) else None;
    var title :=
      if link.None? then Some(ref.text)
      else if link.value.text != "" then Some(link.value.text)
      else None;
    var kind :=
      match ref.cite
      case Some(c) => CitationType(c.className)
      case None => None;
    ReferenceRecord(url, kind, title)
  }

  /** The extractor: `Array.from(references).map(...)` over the matched elements. */
  function ExtractReferences(refs: seq<Reference>): (records: seq<ReferenceRecord>)
    ensures |records| == |refs|
    ensures forall i :: 0 <= i < |refs| ==> records[i] == BuildRecord(refs[i])
  {
    if refs == [] then [] else [BuildRecord(refs[0])] + ExtractReferences(refs[1..])
  }

  /** Extraction commutes with concatenation: the records of a prefix come first. */
  lemma {:induction false} ExtractAppend(a: seq<Reference>, b: seq<Reference>)
    ensures ExtractReferences(a + b) == ExtractReferences(a) + ExtractReferences(b)
  {
    if a == [] {
      assert a + b == b;
    } else {
      assert (a + b)[1..] == a[1..] + b;
      ExtractAppend(a[1..], b);
    }
  }

  /**
   * With a cite present, only the cite's external-text anchor matters: the
   * reference's other anchors cannot change the record.
   */
  lemma CiteLinkIgnoresOtherAnchors(ref: Reference, other: Option<Anchor>)
    requires ref.cite.Some?
    ensures BuildRecord(ref.(firstAnchor := other)) == BuildRecord(ref)
    ensures BuildRecord(ref).url ==
      (if ref.cite.value.externalLink.Some? then Some(ref.cite.value.externalLink.value.href) else None)
  {
  }

  /**
   * Without a cite, the reference's first anchor supplies url and title, the
   * reference text is the title when there is no anchor, and there is no type.
   */
  lemma NoCiteUsesFirstAnchor(ref: Reference)
    requires ref.cite.None?
    ensures BuildRecord(ref).url ==
      (if ref.firstAnchor.Some? then Some(ref.firstAnchor.value.href) else None)
    ensures BuildRecord(ref).title ==
      (if ref.firstAnchor.None? then Some(ref.text)
       else if ref.firstAnchor.value.text != "" then Some(ref.firstAnchor.value.text)
       else None)
    ensures BuildRecord(ref).kind.None?
  {
  }

  /** A cite without an external-text anchor falls back to the reference text, like no link at all. */
  lemma CiteWithoutExternalLink(ref: Reference)
    requires ref.cite.Some? && ref.cite.value.externalLink.None?
    ensures BuildRecord(ref).url.None? && BuildRecord(ref).title == Some(ref.text)
  {
  }

  /** A reference with a cite whose external link is `https://example.com` titled `Example`. */
  lemma ExternalLinkExample(className: string, text: string, first: Option<Anchor>)
    ensures var link := Anchor("https://example.com", "Example");
      var r := BuildRecord(Reference(text, first, Some(Cite(className, Some(link)))));
      r.url == Some("https://example.com") && r.title == Some("Example")
      && r.kind == CitationType(className)
  {
  }

  /** A bare reference with only text gives a record with no url, no type and that text as title. */
  lemma PlainTextExample()
    ensures BuildRecord(Reference("Plain citation text", None, None))
      == ReferenceRecord(None, None, Some("Plain citation text"))
  {
  }

  /** No matched elements: no records. */
  lemma ExtractEmpty()
    ensures ExtractReferences([]) == []
  {
  }
}
