/** Turning one Atom `<entry>` of an arXiv query answer into an
    `ArxivPaper`.

    The XML tree is not modelled: an `Entry` holds what the mapping reads
    from it, in document order, with `None` for an absent element or
    attribute. Parsing a date and constructing a `Uri` are parameters. */
module AtomEntry {
  import opened Wrappers
  import opened Text
  import opened Domain
  import ArxivExtensions

  /** A `<link>` element: its `title` and `href` attributes. */
  datatype Link = Link(title: Option<string>, href: Option<string>)

  /** The parts of an `<entry>` the mapping reads: the text of the `id`,
      `title`, `summary`, `comment` and `published` children, every `link`
      below the entry, the `name` text of every `author`, and the `term` of
      every `category`. */
  datatype Entry = Entry(
    id: Option<string>,
    title: Option<string>,
    summary: Option<string>,
    comment: Option<string>,
    published: Option<string>,
    links: seq<Link>,
    authorNames: seq<Option<string>>,
    categoryTerms: seq<Option<string>>)

  /** The `title` value that marks the PDF link. */
  const PdfTitle: string := "pdf"

  predicate IsPdfLink(l: Link) {
    l.title == Some(PdfTitle)
  }

  /** `FirstOrDefault(l => l.Attribute("title")?.Value == "pdf")`: the
      position of the first PDF link. */
  function FirstPdfLink(links: seq<Link>): (r: Option<nat>)
    ensures r.Some? ==> r.value < |links| && IsPdfLink(links[r.value])
    ensures r.Some? ==> forall k :: 0 <= k < r.value ==> !IsPdfLink(links[k])
    ensures r.None? ==> forall k :: 0 <= k < |links| ==> !IsPdfLink(links[k])
  {
    if |links| == 0 then None
    else if IsPdfLink(links[0]) then Some(0)
    else match FirstPdfLink(links[1..])
      case None => None
      case Some(k) => Some(k + 1)
  }

  /** `pdfLink?.Attribute("href")?.Value`. */
  function PdfHref(e: Entry): Option<string> {
    match FirstPdfLink(e.links)
    case None => None
    case Some(k) => e.links[k].href
  }

  /** `.Where(x => !string.IsNullOrEmpty(x)).Select(x => x!)`: the present,
      non-empty values, in order. */
  function KeepNonEmpty(xs: seq<Option<string>>): seq<string> {
    if |xs| == 0 then []
    else if IsNullOrEmpty(xs[0]) then KeepNonEmpty(xs[1..])
    else [xs[0].value] + KeepNonEmpty(xs[1..])
  }

  /** Exactly the present non-empty values survive. */
  lemma {:induction false} KeepNonEmptyMembers(xs: seq<Option<string>>, x: string)
    ensures x in KeepNonEmpty(xs) <==> x != "" && Some(x) in xs
  {
    if |xs| > 0 {
      KeepNonEmptyMembers(xs[1..], x);
      assert xs == [xs[0]] + xs[1..];
    }
  }

  /** One value is kept exactly when it is present and non-empty; with
      `KeepNonEmptyAppend` this fixes the result, order included. */
  lemma KeepNonEmptySingle(x: Option<string>)
    ensures KeepNonEmpty([x]) == if IsNullOrEmpty(x) then [] else [x.value]
  {
    assert [x][1..] == [];
  }

  /** Filtering keeps order: it distributes over concatenation. */
  lemma {:induction false} KeepNonEmptyAppend(xs: seq<Option<string>>, ys: seq<Option<string>>)
    ensures KeepNonEmpty(xs + ys) == KeepNonEmpty(xs) + KeepNonEmpty(ys)
  {
    if |xs| == 0 {
      assert xs + ys == ys;
    } else {
      assert (xs + ys)[1..] == xs[1..] + ys;
      KeepNonEmptyAppend(xs[1..], ys);
    }
  }

  /** Nothing is added: at most as many values as went in, and all of them
      when every value is present and non-empty. */
  lemma {:induction false} KeepNonEmptyLength(xs: seq<Option<string>>)
    ensures |KeepNonEmpty(xs)| <= |xs|
    ensures (forall k :: 0 <= k < |xs| ==> !IsNullOrEmpty(xs[k])) ==> |KeepNonEmpty(xs)| == |xs|
  {
    if |xs| > 0 {
      KeepNonEmptyLength(xs[1..]);
    }
  }

  /** `DateTime.TryParse(text, out d) ? d : DateTime.MinValue`. */
  function PublishedDate(text: Option<string>, parseDate: string -> Option<DateTime>): DateTime {
    match text
    case None => MinValue
    case Some(t) => parseDate(t).GetOr(MinValue)
  }

  /** `x?.Trim()`. */
  function TrimOpt(x: Option<string>): Option<string> {
    match x
    case None => None
    case Some(s) => Some(Trim(s))
  }

  /** `entry.ToArxivPaper()`. A missing `id` makes `ToShortId` dereference
      null; a PDF link whose address `newUri` rejects makes `new Uri(...)`
      throw. */
  function ToArxivPaper(e: Entry, parseDate: string -> Option<DateTime>,
                        newUri: string -> Option<Uri>): (r: Result<ArxivPaper, Error>)
    ensures r.Success? <==> e.id.Some? && (PdfHref(e).None? || newUri(PdfHref(e).value).Some?)
    ensures e.id.None? ==> r == Failure(NullReference)
    ensures (e.id.Some? && PdfHref(e).Some? && newUri(PdfHref(e).value).None?) ==>
              r == Failure(UriFormat(PdfHref(e).value))
    ensures r.Success? ==> IsSuffix(r.value.id, e.id.value)
    ensures r.Success? ==> !Contains(r.value.id, ArxivExtensions.Marker)
    ensures r.Success? ==> r.value.id == ArxivExtensions.ToShortId(e.id.value)
    ensures r.Success? ==> (r.value.pdfUri.Some? <==> PdfHref(e).Some?)
    ensures r.Success? && PdfHref(e).Some? ==> r.value.pdfUri == newUri(PdfHref(e).value)
    ensures r.Success? ==> (r.value.title.Some? <==> e.title.Some?)
    ensures r.Success? && e.title.Some? ==> r.value.title.value == Trim(e.title.value)
    ensures r.Success? && e.summary.None? ==> r.value.summary == ""
    ensures r.Success? && e.summary.Some? ==> r.value.summary == Trim(e.summary.value)
    ensures r.Success? ==> (r.value.comments.Some? <==> e.comment.Some?)
    ensures r.Success? && e.comment.Some? ==> r.value.comments.value == Trim(e.comment.value)
    ensures r.Success? && (e.published.None? || parseDate(e.published.value).None?) ==>
              r.value.published == MinValue
    ensures r.Success? && e.published.Some? && parseDate(e.published.value).Some? ==>
              r.value.published == parseDate(e.published.value).value
    ensures r.Success? ==> r.value.authors == KeepNonEmpty(e.authorNames)
    ensures r.Success? ==> r.value.categories == KeepNonEmpty(e.categoryTerms)
    ensures r.Success? ==> |r.value.authors| <= |e.authorNames|
    ensures r.Success? ==> |r.value.categories| <= |e.categoryTerms|
  {
    if e.id.None? then Failure(NullReference)
    else
      var href := PdfHref(e);
      if href.Some? && newUri(href.value).None? then Failure(UriFormat(href.value))
      else
        KeepNonEmptyLength(e.authorNames);
        KeepNonEmptyLength(e.categoryTerms);
        Success(ArxivPaper(
          id := ArxivExtensions.ToShortId(e.id.value),
          title := TrimOpt(e.title),
          summary := TrimOpt(e.summary).GetOr(""),
          comments := TrimOpt(e.comment),
          pdfUri := if href.Some? then newUri(href.value) else None,
          published := PublishedDate(e.published, parseDate),
          authors := KeepNonEmpty(e.authorNames),
          categories := KeepNonEmpty(e.categoryTerms)))
  }

  /** The paper's authors and categories are exactly the entry's present,
      non-empty names and terms. */
  lemma ToArxivPaperLists(e: Entry, parseDate: string -> Option<DateTime>,
                          newUri: string -> Option<Uri>, x: string)
    requires ToArxivPaper(e, parseDate, newUri).Success?
    ensures var p := ToArxivPaper(e, parseDate, newUri).value;
      && (x in p.authors <==> x != "" && Some(x) in e.authorNames)
      && (x in p.categories <==> x != "" && Some(x) in e.categoryTerms)
  {
    KeepNonEmptyMembers(e.authorNames, x);
    KeepNonEmptyMembers(e.categoryTerms, x);
  }

  /** The PDF link chosen is the first one titled `pdf`; links after it
      do not matter. */
  lemma PdfHrefIgnoresLaterLinks(e: Entry, more: seq<Link>)
    requires FirstPdfLink(e.links).Some?
    ensures PdfHref(e.(links := e.links + more)) == PdfHref(e)
  {
    var k := FirstPdfLink(e.links).value;
    var all := e.links + more;
    assert all[k] == e.links[k];
    forall j | 0 <= j < k
      ensures !IsPdfLink(all[j])
    {
      assert all[j] == e.links[j];
    }
    FirstPdfLinkIs(all, k);
  }

  /** A PDF link with no PDF link before it is the one chosen. */
  lemma {:induction false} FirstPdfLinkIs(links: seq<Link>, k: nat)
    requires k < |links| && IsPdfLink(links[k])
    requires forall j :: 0 <= j < k ==> !IsPdfLink(links[j])
    ensures FirstPdfLink(links) == Some(k)
  {
    if k > 0 {
      FirstPdfLinkIs(links[1..], k - 1);
    }
  }

  /** A missing or unreadable publication date leaves the minimum date;
      a readable one is kept. */
  lemma PublishedDateCases(text: Option<string>, parseDate: string -> Option<DateTime>)
    ensures text.Some? && parseDate(text.value).Some? ==>
              PublishedDate(text, parseDate) == parseDate(text.value).value
    ensures text.None? || parseDate(text.value).None? ==> PublishedDate(text, parseDate) == MinValue
  {
  }
}
