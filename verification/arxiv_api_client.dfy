/** The arXiv catalogue client: id normalisation, the `query?id_list=...`
    request, the single-pass outer loop, the mapping of the answer's
    entries into papers, and the PDF download with its error wrapping.

    The HTTP exchange is a parameter `fetch` from the request path to the
    already-parsed entries or an error (a failed request, a non-success
    status or unparsable XML); the PDF download is a parameter `download`.
    An async stream becomes a `PaperStream`: the papers yielded, then the
    error that ended the enumeration, if any. */
module ArxivApiClient {
  import opened Wrappers
  import opened Text
  import opened Numbers
  import opened Domain
  import opened AtomEntry

  type Bytes = seq<bv8>

  /** The prefix removed (ignoring case) from every requested id. */
  const ArxivPrefix: string := "arXiv:"

  /** The character the source cuts each id at. */
  const VersionMark: string := "v"

  // ---------------------------------------------------------------------
  // Id normalisation

  /** The id normalisation as written: remove every `arXiv:` ignoring case,
      then keep the text before the first `v`. */
  function NormaliseIdAsWritten(id: string): (r: string)
    ensures 'v' !in r
    ensures IsPrefix(r, ReplaceIgnoreCase(id, ArxivPrefix, ""))
  {
    var s := ReplaceIgnoreCase(id, ArxivPrefix, "");
    SplitProperties(s, VersionMark);
    var r := Split(s, VersionMark)[0];
    ContainsChar(r, 'v');
    r
  }

  /** Cutting at the first `v` keeps exactly the text before it. */
  lemma CutAtFirstV(base: string, rest: string)
    requires 'v' !in base
    ensures Split(base + VersionMark + rest, VersionMark)[0] == base
  {
    var s := base + VersionMark + rest;
    ContainsChar(base, 'v');
    assert OccursAt(s, VersionMark, |base|) by {
      assert s[|base|..|base| + 1] == VersionMark;
    }
    forall j: nat | j < |base|
      ensures !OccursAt(s, VersionMark, j)
    {
      assert s[j] == base[j] && base[j] != 'v';
      assert s[j..j + 1] == [s[j]];
    }
    assert IndexOf(s, VersionMark, 0) == Some(|base|);
    assert s[..|base|] == base;
  }

  /** Text with no `v` is kept whole by the cut. */
  lemma CutWithoutV(s: string)
    requires 'v' !in s
    ensures Split(s, VersionMark)[0] == s
  {
    ContainsChar(s, 'v');
    SplitWithoutSeparator(s, VersionMark);
  }

  /** The text with its trailing decimal digits removed. */
  function DropTrailingDigits(s: string): (r: string)
    ensures IsPrefix(r, s)
    ensures AllDigits(s[|r|..])
    ensures |r| > 0 ==> !IsDigit(r[|r| - 1])
    decreases |s|
  {
    if |s| > 0 && IsDigit(s[|s| - 1]) then
      var r := DropTrailingDigits(s[..|s| - 1]);
      assert s[|r|..] == s[..|s| - 1][|r|..] + [s[|s| - 1]];
      r
    else s
  }

  lemma {:induction false} DropDigitsAfter(x: string, ds: string)
    requires |x| > 0 && !IsDigit(x[|x| - 1]) && AllDigits(ds)
    ensures DropTrailingDigits(x + ds) == x
    decreases |ds|
  {
    if |ds| == 0 {
      assert x + ds == x;
    } else {
      var s := x + ds;
      assert s[..|s| - 1] == x + ds[..|ds| - 1];
      DropDigitsAfter(x, ds[..|ds| - 1]);
    }
  }

  /** The evidently intended "remove version if present": drop a trailing
      `v` followed by one or more digits, and nothing else. Either the id
      is unchanged or what was removed is exactly such a suffix. */
  function StripVersion(id: string): (r: string)
    ensures IsPrefix(r, id)
    ensures r == id || (|r| + 1 < |id| && id[|r|] == 'v' && AllDigits(id[|r| + 1..]))
  {
    var t := DropTrailingDigits(id);
    if 0 < |t| < |id| && t[|t| - 1] == 'v' then
      assert id[|t|..] == id[|t| - 1 + 1..];
      t[..|t| - 1]
    else id
  }

  /** A version suffix is removed whole, whatever the base holds. */
  lemma StripVersionOfVersioned(base: string, digits: string)
    requires |digits| > 0 && AllDigits(digits)
    ensures StripVersion(base + VersionMark + digits) == base
  {
    var x := base + VersionMark;
    assert base + VersionMark + digits == x + digits;
    DropDigitsAfter(x, digits);
    assert x[..|x| - 1] == base;
  }

  /** An id that does not end in a digit has no version to remove. */
  lemma StripVersionOfUnversioned(id: string)
    requires |id| == 0 || !IsDigit(id[|id| - 1])
    ensures StripVersion(id) == id
  {
  }

  /** An old-style id `archive/number`, whose archive name may hold a `v`,
      is kept whole. */
  lemma StripVersionKeepsOldStyleId(archive: string, number: string)
    requires AllDigits(number)
    ensures StripVersion(archive + "/" + number) == archive + "/" + number
  {
    var x := archive + "/";
    assert archive + "/" + number == x + number;
    DropDigitsAfter(x, number);
  }

  /** The id normalisation the query uses: the prefix removal of the
      source, then the corrected version removal. */
  function NormaliseId(id: string): string {
    StripVersion(ReplaceIgnoreCase(id, ArxivPrefix, ""))
  }

  /** On ids of the current `yymm.number` form, and on any text whose only
      `v` starts a version suffix, the two normalisations agree. */
  lemma NormalisationsAgree(base: string, digits: string)
    requires 'v' !in base && |digits| > 0 && AllDigits(digits)
    ensures Split(base + VersionMark + digits, VersionMark)[0] == StripVersion(base + VersionMark + digits) == base
  {
    CutAtFirstV(base, digits);
    StripVersionOfVersioned(base, digits);
  }

  /** The cut at the first `v` truncates an old-style id whose archive
      name holds a `v`, where the corrected normalisation keeps it. */
  lemma AsWrittenTruncatesOldStyleId(head: string, tail: string, number: string)
    requires 'v' !in head && AllDigits(number)
    ensures Split(head + VersionMark + tail + "/" + number, VersionMark)[0] == head
    ensures StripVersion(head + VersionMark + tail + "/" + number) == head + VersionMark + tail + "/" + number
  {
    assert head + VersionMark + tail + "/" + number == head + VersionMark + (tail + "/" + number);
    CutAtFirstV(head, tail + "/" + number);
    StripVersionKeepsOldStyleId(head + VersionMark + tail, number);
  }

  /** The id `solv-int/9901001` of the `solv-int` archive. */
  const SolvIntId: string := "solv-int/9901001"

  lemma SolvIntUnprefixed()
    ensures ReplaceIgnoreCase(SolvIntId, ArxivPrefix, "") == SolvIntId
  {
    NoMatchWithoutFirstChar(SolvIntId, ArxivPrefix, |SolvIntId|);
    ReplaceWithoutMatch(SolvIntId, ArxivPrefix, "");
  }

  /** `solv-int/9901001` is `sol`, then the `v`, then `-int/` and the
      number. */
  lemma SolvIntParts()
    ensures SolvIntId == "sol" + VersionMark + "-int" + "/" + "9901001"
    ensures 'v' !in "sol" && AllDigits("9901001")
  {
  }

  /** `solv-int/9901001` is requested as `sol` by the normalisation as
      written, and kept whole by the corrected one. */
  lemma SolvIntExample()
    ensures NormaliseIdAsWritten(SolvIntId) == "sol"
    ensures NormaliseId(SolvIntId) == SolvIntId
  {
    SolvIntUnprefixed();
    SolvIntParts();
    AsWrittenTruncatesOldStyleId("sol", "-int", "9901001");
  }

  // ---------------------------------------------------------------------
  // The request

  function Skip<T>(xs: seq<T>, n: int): seq<T> {
    if n <= 0 then xs else if n >= |xs| then [] else xs[n..]
  }

  function Take<T>(xs: seq<T>, n: int): seq<T> {
    if n <= 0 then [] else if n >= |xs| then xs else xs[..n]
  }

  /** The ids as the request sends them: each normalised as written, in
      input order. */
  function NormaliseAll(ids: seq<string>): (r: seq<string>)
    ensures |r| == |ids|
    ensures forall k :: 0 <= k < |ids| ==>
              && 'v' !in r[k]
              && IsPrefix(r[k], ReplaceIgnoreCase(ids[k], ArxivPrefix, ""))
              && r[k] == NormaliseIdAsWritten(ids[k])
  {
    seq(|ids|, k requires 0 <= k < |ids| => NormaliseIdAsWritten(ids[k]))
  }

  /** The ids as the evidently intended normalisation would send them. */
  function NormaliseAllCorrected(ids: seq<string>): (r: seq<string>)
    ensures |r| == |ids|
    ensures forall k :: 0 <= k < |ids| ==> r[k] == NormaliseId(ids[k])
  {
    seq(|ids|, k requires 0 <= k < |ids| => NormaliseId(ids[k]))
  }

  /** On ids whose unprefixed text is a base without `v` followed by a
      version, both normalisations send the same ids, the bases, and so
      the same request. */
  lemma NormaliseAllAgree(ids: seq<string>, bases: seq<string>, versions: seq<string>, start: int, maxItems: int)
    requires |bases| == |ids| && |versions| == |ids|
    requires forall k :: 0 <= k < |ids| ==>
               && ReplaceIgnoreCase(ids[k], ArxivPrefix, "") == bases[k] + VersionMark + versions[k]
               && 'v' !in bases[k] && |versions[k]| > 0 && AllDigits(versions[k])
    ensures NormaliseAll(ids) == bases
    ensures NormaliseAllCorrected(ids) == bases
    ensures QueryUrl(ids, start, maxItems) == QueryUrlCorrected(ids, start, maxItems)
  {
    forall k | 0 <= k < |ids|
      ensures NormaliseAll(ids)[k] == bases[k] && NormaliseAllCorrected(ids)[k] == bases[k]
    {
      NormalisationsAgree(bases[k], versions[k]);
    }
  }

  const QueryPrefix: string := "query?id_list="
  const StartKey: string := "start="
  const MaxResultsKey: string := "max_results="

  /** `query?id_list={idList}&start={start}&max_results={maxItems}` for ids
      already normalised: `idList` is the ids comma-separated in order. */
  function QueryPath(names: seq<string>, start: int, maxItems: int): (url: string)
    ensures IsPrefix(QueryPrefix, url)
  {
    var url := QueryPrefix + Join([Join(names, ","), StartKey + IntToString(start), MaxResultsKey + IntToString(maxItems)], "&");
    assert url[..|QueryPrefix|] == QueryPrefix;
    url
  }

  /** The `id_list` field the client sends. */
  function IdList(ids: seq<string>): (list: string)
    ensures list == "" <==> |ids| == 0 || (|ids| == 1 && NormaliseAll(ids)[0] == "")
  {
    var names := NormaliseAll(ids);
    var list := Join(names, ",");
    assert |names| > 1 ==> |list| >= |names[0] + ","|;
    list
  }

  /** The request path the client sends, built from the ids normalised as
      written. */
  function QueryUrl(ids: seq<string>, start: int, maxItems: int): (url: string)
    ensures IsPrefix(QueryPrefix, url)
  {
    QueryPath(NormaliseAll(ids), start, maxItems)
  }

  /** The request path the evidently intended normalisation would send. */
  function QueryUrlCorrected(ids: seq<string>, start: int, maxItems: int): (url: string)
    ensures IsPrefix(QueryPrefix, url)
  {
    QueryPath(NormaliseAllCorrected(ids), start, maxItems)
  }

  /** Reads a request path back into its id list, start and page size. An
      empty `id_list` reads as no ids. */
  function ParseQuery(url: string): Option<(seq<string>, int, int)> {
    if !IsPrefix(QueryPrefix, url) then None
    else
      var fields := Split(url[|QueryPrefix|..], "&");
      if |fields| != 3 || !IsPrefix(StartKey, fields[1]) || !IsPrefix(MaxResultsKey, fields[2]) then None
      else
        match (ParseInt(fields[1][|StartKey|..]), ParseInt(fields[2][|MaxResultsKey|..]))
        case (Some(start), Some(maxItems)) =>
          Some((if fields[0] == "" then [] else Split(fields[0], ","), start, maxItems))
        case _ => None
  }

  /** Normalised ids that can travel in `id_list`: not empty, and free of
      the two separators of the query. */
  predicate Transmissible(names: seq<string>) {
    forall k :: 0 <= k < |names| ==> names[k] != "" && ',' !in names[k] && '&' !in names[k]
  }

  lemma FieldLacksAmpersand(key: string, n: int)
    requires '&' !in key
    ensures !Contains(key + IntToString(n), "&")
  {
    IntToStringAlphabet(n);
    var s := key + IntToString(n);
    forall k | 0 <= k < |s|
      ensures s[k] != '&'
    {
      if k >= |key| {
        assert s[k] == IntToString(n)[k - |key|];
      }
    }
    ContainsChar(s, '&');
  }

  /** The request path is the prefix followed by the three fields, which
      splitting at `&` recovers. */
  lemma QueryPathFields(names: seq<string>, start: int, maxItems: int)
    requires Transmissible(names)
    ensures var url := QueryPath(names, start, maxItems);
      Split(url[|QueryPrefix|..], "&") == [Join(names, ","), StartKey + IntToString(start), MaxResultsKey + IntToString(maxItems)]
  {
    var list := Join(names, ",");
    var fields := [list, StartKey + IntToString(start), MaxResultsKey + IntToString(maxItems)];
    var url := QueryPath(names, start, maxItems);
    assert url[|QueryPrefix|..] == Join(fields, "&");
    JoinLacksChar(names, ",", '&');
    ContainsChar(list, '&');
    FieldLacksAmpersand(StartKey, start);
    FieldLacksAmpersand(MaxResultsKey, maxItems);
    SplitJoin(fields, "&");
  }

  /** A `key=` field followed by a number reads back as that number. */
  lemma KeyedNumberRoundTrip(key: string, n: int)
    ensures IsPrefix(key, key + IntToString(n))
    ensures ParseInt((key + IntToString(n))[|key|..]) == Some(n)
  {
    var a := key + IntToString(n);
    assert a[..|key|] == key && a[|key|..] == IntToString(n);
    IntToStringRoundTrip(n);
  }

  /** An `id_list` field reads back as its ids, in order; an empty field
      as no ids. */
  lemma IdListOfRoundTrip(names: seq<string>)
    requires Transmissible(names)
    ensures (if Join(names, ",") == "" then [] else Split(Join(names, ","), ",")) == names
  {
    if |names| > 0 {
      JoinNotEmpty(names, ",");
      forall k | 0 <= k < |names|
        ensures !Contains(names[k], ",")
      {
        ContainsChar(names[k], ',');
      }
      SplitJoin(names, ",");
    }
  }

  /** A request path built from transmissible ids reads back as those ids,
      in order, the start and the page size. */
  lemma QueryPathRoundTrip(names: seq<string>, start: int, maxItems: int)
    requires Transmissible(names)
    ensures ParseQuery(QueryPath(names, start, maxItems)) == Some((names, start, maxItems))
  {
    QueryPathFields(names, start, maxItems);
    KeyedNumberRoundTrip(StartKey, start);
    KeyedNumberRoundTrip(MaxResultsKey, maxItems);
    IdListOfRoundTrip(names);
  }

  /** The `id_list` field the client sends reads back as the ids cut as
      written, in input order; no id in it holds a `v`. */
  lemma IdListRoundTrip(ids: seq<string>)
    requires Transmissible(NormaliseAll(ids))
    ensures (if IdList(ids) == "" then [] else Split(IdList(ids), ",")) == NormaliseAll(ids)
    ensures forall k :: 0 <= k < |ids| ==> 'v' !in NormaliseAll(ids)[k]
  {
    IdListOfRoundTrip(NormaliseAll(ids));
  }

  /** The request path the client sends determines the ids as cut by the
      normalisation as written, their order, the start and the page
      size. */
  lemma QueryUrlRoundTrip(ids: seq<string>, start: int, maxItems: int)
    requires Transmissible(NormaliseAll(ids))
    ensures ParseQuery(QueryUrl(ids, start, maxItems)) == Some((NormaliseAll(ids), start, maxItems))
  {
    QueryPathRoundTrip(NormaliseAll(ids), start, maxItems);
  }

  /** The same for the corrected request path. */
  lemma QueryUrlCorrectedRoundTrip(ids: seq<string>, start: int, maxItems: int)
    requires Transmissible(NormaliseAllCorrected(ids))
    ensures ParseQuery(QueryUrlCorrected(ids, start, maxItems)) == Some((NormaliseAllCorrected(ids), start, maxItems))
  {
    QueryPathRoundTrip(NormaliseAllCorrected(ids), start, maxItems);
  }

  /** A request for one id reads back as that id, cut as written. */
  lemma SingleIdRequest(id: string, start: int, maxItems: int)
    requires Transmissible([NormaliseIdAsWritten(id)])
    ensures ParseQuery(QueryUrl([id], start, maxItems)) == Some(([NormaliseIdAsWritten(id)], start, maxItems))
  {
    assert NormaliseAll([id]) == [NormaliseIdAsWritten(id)];
    QueryUrlRoundTrip([id], start, maxItems);
  }

  /** A corrected request for one id reads back as that id, version
      removed. */
  lemma SingleIdRequestCorrected(id: string, start: int, maxItems: int)
    requires Transmissible([NormaliseId(id)])
    ensures ParseQuery(QueryUrlCorrected([id], start, maxItems)) == Some(([NormaliseId(id)], start, maxItems))
  {
    assert NormaliseAllCorrected([id]) == [NormaliseId(id)];
    QueryUrlCorrectedRoundTrip([id], start, maxItems);
  }

  /** Both `sol` and `solv-int/9901001` can travel in `id_list`. */
  lemma SolvIntTransmissible()
    ensures Transmissible(["sol"]) && Transmissible([SolvIntId])
  {
    assert ["sol"][0] == "sol" && [SolvIntId][0] == SolvIntId;
  }

  /** Asked for `solv-int/9901001`, the client requests the id `sol`; the
      corrected request asks for the id itself. */
  lemma SolvIntRequest(start: int, maxItems: int)
    ensures ParseQuery(QueryUrl([SolvIntId], start, maxItems)) == Some((["sol"], start, maxItems))
    ensures ParseQuery(QueryUrlCorrected([SolvIntId], start, maxItems)) == Some(([SolvIntId], start, maxItems))
  {
    SolvIntExample();
    SolvIntTransmissible();
    SingleIdRequest(SolvIntId, start, maxItems);
    SingleIdRequestCorrected(SolvIntId, start, maxItems);
  }

  // ---------------------------------------------------------------------
  // The answer

  /** `f` applied to the items in order, up to the first failure, which
      ends the run. */
  function MapUntilFailure<A, B>(xs: seq<A>, f: A -> Result<B, Error>): (r: (seq<B>, Option<Error>))
    ensures |r.0| <= |xs|
    ensures forall k :: 0 <= k < |r.0| ==> f(xs[k]) == Success(r.0[k])
    ensures r.1.None? <==> |r.0| == |xs|
    ensures r.1.Some? ==> f(xs[|r.0|]) == Failure(r.1.value)
  {
    if |xs| == 0 then ([], None)
    else match f(xs[0])
      case Failure(e) => ([], Some(e))
      case Success(y) =>
        var rest := MapUntilFailure(xs[1..], f);
        ([y] + rest.0, rest.1)
  }

  /** The entries mapped one by one with `ToArxivPaper`, in document order;
      the first entry that cannot be mapped ends the stream with its error. */
  function MapEntries(entries: seq<Entry>, parseDate: string -> Option<DateTime>,
                      newUri: string -> Option<Uri>): (s: PaperStream)
    ensures |s.items| <= |entries|
    ensures forall k :: 0 <= k < |s.items| ==> ToArxivPaper(entries[k], parseDate, newUri) == Success(s.items[k])
    ensures s.failure.None? <==> |s.items| == |entries|
    ensures s.failure.Some? ==> ToArxivPaper(entries[|s.items|], parseDate, newUri) == Failure(s.failure.value)
  {
    var r := MapUntilFailure(entries, e => ToArxivPaper(e, parseDate, newUri));
    PaperStream(r.0, r.1)
  }

  /** The private `GetPaperInfo` once its request is answered: a failed
      request ends the stream before any paper (nothing wraps it). */
  function AnswerStream(answer: Result<seq<Entry>, Error>, parseDate: string -> Option<DateTime>,
                        newUri: string -> Option<Uri>): (s: PaperStream)
    ensures answer.Failure? ==> s == PaperStream([], Some(answer.error))
    ensures answer.Success? ==> |s.items| <= |answer.value|
    ensures answer.Success? ==> s == MapEntries(answer.value, parseDate, newUri)
  {
    match answer
    case Failure(e) => PaperStream([], Some(e))
    case Success(entries) => MapEntries(entries, parseDate, newUri)
  }

  /** The page size the public `GetPaperInfo` uses when none is given. */
  const DefaultMaxItems: int := 10

  /** The stream the public `GetPaperInfo` produces, stated as one request
      for the first `maxItems` ids from position 0. */
  function PaperInfo(ids: seq<string>, maxItems: int, fetch: string -> Result<seq<Entry>, Error>,
                     parseDate: string -> Option<DateTime>, newUri: string -> Option<Uri>): (s: PaperStream)
    ensures var answer := fetch(QueryUrl(Take(ids, maxItems), 0, maxItems));
      && (answer.Failure? ==> s == PaperStream([], Some(answer.error)))
      && (answer.Success? ==>
            && |s.items| <= |answer.value|
            && forall k :: 0 <= k < |s.items| ==> ToArxivPaper(answer.value[k], parseDate, newUri) == Success(s.items[k]))
    ensures var answer := fetch(QueryUrl(Take(ids, maxItems), 0, maxItems));
      answer.Success? ==> s == MapEntries(answer.value, parseDate, newUri)
  {
    AnswerStream(fetch(QueryUrl(Take(ids, maxItems), 0, maxItems)), parseDate, newUri)
  }

  /** The public `GetPaperInfo`: the do-while loop over batches, as
      written. `requests` lists the request paths sent. The loop body runs
      exactly once, so only the first `maxItems` ids are ever requested,
      and an empty id list still sends a request. */
  method GetPaperInfo(ids: seq<string>, maxItems: int, fetch: string -> Result<seq<Entry>, Error>,
                      parseDate: string -> Option<DateTime>, newUri: string -> Option<Uri>)
      returns (papers: seq<ArxivPaper>, failure: Option<Error>, requests: seq<string>)
    ensures requests == [QueryUrl(Take(ids, maxItems), 0, maxItems)]
    ensures PaperStream(papers, failure) == PaperInfo(ids, maxItems, fetch, parseDate, newUri)
  {
    var start := 0;
    var first := true;
    papers, failure, requests := [], None, [];
    while first || (failure.None? && start < maxItems)
      invariant first ==> start == 0 && papers == [] && failure.None? && requests == []
      invariant !first ==> start == maxItems
      invariant !first ==> requests == [QueryUrl(Take(ids, maxItems), 0, maxItems)]
      invariant !first ==> PaperStream(papers, failure) == PaperInfo(ids, maxItems, fetch, parseDate, newUri)
      decreases if first then 1 else 0
    {
      var batch := Take(Skip(ids, start), maxItems);
      var url := QueryUrl(batch, start, maxItems);
      requests := requests + [url];
      var page := AnswerStream(fetch(url), parseDate, newUri);
      papers := papers + page.items;
      failure := page.failure;
      start := start + maxItems;
      first := false;
    }
  }

  /** `FirstOrDefaultAsync`: the first paper, the error raised before any
      paper, or no paper. */
  function FirstOrDefault(s: PaperStream): (r: Result<Option<ArxivPaper>, Error>)
    ensures |s.items| > 0 ==> r == Success(Some(s.items[0]))
    ensures |s.items| == 0 ==> (r.Failure? <==> s.failure.Some?)
    ensures |s.items| == 0 && s.failure.Some? ==> r == Failure(s.failure.value)
    ensures r.Success? && r.value.None? ==> |s.items| == 0 && s.failure.None?
  {
    if |s.items| > 0 then Success(Some(s.items[0]))
    else if s.failure.Some? then Failure(s.failure.value)
    else Success(None)
  }

  /** Only the first entry of the answer decides the first paper: what
      follows it is never mapped. */
  lemma FirstEntryDecides(e: Entry, more: seq<Entry>, parseDate: string -> Option<DateTime>,
                          newUri: string -> Option<Uri>)
    ensures FirstOrDefault(MapEntries([e] + more, parseDate, newUri)) ==
      match ToArxivPaper(e, parseDate, newUri)
      case Success(p) => Success(Some(p))
      case Failure(x) => Failure(x)
  {
  }

  const DownloadErrorPrefix: string := "Error downloading PDF: "
  const NoPdfMessage: string := "PDF URL is not available for this paper."

  /** `DownloadPdfToMemoryStream`: an HTTP failure is rethrown as an
      `ArxivPdfDownloadException` whose message extends the original's and
      whose inner exception is the original; any other failure passes
      through unchanged. */
  function DownloadPdf(uri: Uri, download: Uri -> Result<Bytes, Error>): (r: Result<Bytes, Error>)
    ensures r.Success? <==> download(uri).Success?
    ensures r.Success? ==> r.value == download(uri).value
    ensures download(uri).Failure? && download(uri).error.HttpRequest? ==>
      && r.Failure? && r.error.ArxivPdfDownload?
      && r.error.inner == Some(download(uri).error)
      && IsPrefix(DownloadErrorPrefix, r.error.message)
      && r.error.message[|DownloadErrorPrefix|..] == download(uri).error.message
    ensures download(uri).Failure? && !download(uri).error.HttpRequest? ==> r == download(uri)
  {
    match download(uri)
    case Success(bytes) => Success(bytes)
    case Failure(HttpRequest(m)) =>
      var msg := DownloadErrorPrefix + m;
      assert msg[..|DownloadErrorPrefix|] == DownloadErrorPrefix && msg[|DownloadErrorPrefix|..] == m;
      Failure(ArxivPdfDownload(msg, Some(HttpRequest(m))))
    case Failure(e) => Failure(e)
  }

  /** `GetPaperWithPdf`: the first paper for the id and its PDF. An error
      before the first paper propagates; no paper at all dereferences null;
      a paper without a PDF address is refused; otherwise that address is
      downloaded. */
  function GetPaperWithPdf(arxivId: string, fetch: string -> Result<seq<Entry>, Error>,
                           download: Uri -> Result<Bytes, Error>,
                           parseDate: string -> Option<DateTime>,
                           newUri: string -> Option<Uri>): (r: Result<(ArxivPaper, Bytes), Error>)
    ensures var s := PaperInfo([arxivId], DefaultMaxItems, fetch, parseDate, newUri);
      && (r.Success? ==> |s.items| > 0 && s.items[0] == r.value.0 && r.value.0.pdfUri.Some?
                         && download(r.value.0.pdfUri.value) == Success(r.value.1))
      && (|s.items| > 0 && s.items[0].pdfUri.None? ==> r == Failure(ArxivPdfDownload(NoPdfMessage, None)))
      && (|s.items| == 0 && s.failure.None? ==> r == Failure(NullReference))
      && (|s.items| == 0 && s.failure.Some? ==> r == Failure(s.failure.value))
      && (|s.items| > 0 && s.items[0].pdfUri.Some? ==>
            r == match DownloadPdf(s.items[0].pdfUri.value, download)
                 case Success(b) => Success((s.items[0], b))
                 case Failure(e) => Failure(e))
  {
    var first :- FirstOrDefault(PaperInfo([arxivId], DefaultMaxItems, fetch, parseDate, newUri));
    if first.None? then Failure(NullReference)
    else if first.value.pdfUri.None? then Failure(ArxivPdfDownload(NoPdfMessage, None))
    else
      var bytes :- DownloadPdf(first.value.pdfUri.value, download);
      Success((first.value, bytes))
  }

  /** `GetPaperWithPdf` asks for exactly the one id it is given, cut as
      written. */
  lemma PaperWithPdfRequest(arxivId: string)
    ensures Take([arxivId], DefaultMaxItems) == [arxivId]
    ensures Transmissible([NormaliseIdAsWritten(arxivId)]) ==>
      ParseQuery(QueryUrl(Take([arxivId], DefaultMaxItems), 0, DefaultMaxItems))
        == Some(([NormaliseIdAsWritten(arxivId)], 0, DefaultMaxItems))
  {
    if Transmissible([NormaliseIdAsWritten(arxivId)]) {
      SingleIdRequest(arxivId, 0, DefaultMaxItems);
    }
  }
}
