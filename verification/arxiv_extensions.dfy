/** Helpers on arXiv identifiers and papers: the short identifier taken
    from an entry URL, the display title, and the metadata text stored with
    a document. */
module ArxivExtensions {
  import opened Wrappers
  import opened Text
  import opened Domain
  import Json

  /** What precedes the short identifier in an arXiv abstract URL. */
  const Marker: string := "arxiv.org/abs/"

  /** `value.ToShortId()`: the text after the last occurrence of the marker,
      or the whole value when the marker does not occur. */
  function ToShortId(value: string): (r: string)
    ensures IsSuffix(r, value)
    ensures !Contains(r, Marker)
  {
    SplitLastPiece(value, Marker);
    var parts := Split(value, Marker);
    parts[|parts| - 1]
  }

  /** Text without the marker is its own short identifier. */
  lemma ToShortIdWithoutMarker(value: string)
    requires !Contains(value, Marker)
    ensures ToShortId(value) == value
  {
    SplitWithoutSeparator(value, Marker);
  }

  /** Shifting the marker by fewer than its length never lines it up with
      itself: its only repeated letter, the `a` at index 10, is followed by
      `b` rather than `r`. */
  lemma MarkerShiftMismatch(d: nat)
    requires 0 < d < |Marker|
    ensures Marker[d] != Marker[0] || (d + 1 < |Marker| && Marker[d + 1] != Marker[1])
  {
  }

  /** Two occurrences of the marker never overlap. */
  lemma MarkerOccurrencesDisjoint(s: string, i: nat, j: nat)
    requires OccursAt(s, Marker, i) && OccursAt(s, Marker, j) && i < j
    ensures i + |Marker| <= j
  {
    assert s[j] == Marker[0] && s[j + 1] == Marker[1] by {
      assert s[j..j + |Marker|][0] == s[j];
      assert s[j..j + |Marker|][1] == s[j + 1];
    }
    forall k | 0 <= k < |Marker|
      ensures s[i + k] == Marker[k]
    {
      assert s[i..i + |Marker|][k] == s[i + k];
    }
    forall d | 0 < d < |Marker|
      ensures Marker[d] != Marker[0] || (d + 1 < |Marker| && Marker[d + 1] != Marker[1])
    {
      MarkerShiftMismatch(d);
    }
  }

  /** The first marker in `p + marker + r` starts no later than `|p|`, and
      one that starts earlier ends before `|p|`. */
  lemma FirstMarkerBeforeLast(p: string, r: string) returns (i: nat)
    ensures IndexOf(p + Marker + r, Marker, 0) == Some(i)
    ensures i == |p| || i + |Marker| <= |p|
  {
    var s := p + Marker + r;
    assert OccursAt(s, Marker, |p|) by { assert s[|p|..|p| + |Marker|] == Marker; }
    var found := IndexOf(s, Marker, 0);
    i := found.value;
    if i < |p| {
      MarkerOccurrencesDisjoint(s, i, |p|);
    }
  }

  lemma DropThroughMarker(p: string, r: string, i: nat)
    requires i + |Marker| <= |p|
    ensures (p + Marker + r)[i + |Marker|..] == p[i + |Marker|..] + Marker + r
  {
  }

  /** Whatever precedes the last marker is dropped: the short identifier of
      `p + marker + r` is `r` when `r` holds no further marker. */
  lemma {:induction false} ToShortIdAfterLastMarker(p: string, r: string)
    requires !Contains(r, Marker)
    ensures ToShortId(p + Marker + r) == r
    decreases |p|
  {
    var s := p + Marker + r;
    var i := FirstMarkerBeforeLast(p, r);
    ToShortIdAfterFirst(s, i);
    if i == |p| {
      assert s[i + |Marker|..] == r;
      ToShortIdWithoutMarker(r);
    } else {
      DropThroughMarker(p, r, i);
      ToShortIdAfterLastMarker(p[i + |Marker|..], r);
    }
  }

  /** The first marker and what precedes it do not affect the result. */
  lemma ToShortIdAfterFirst(s: string, i: nat)
    requires IndexOf(s, Marker, 0) == Some(i)
    ensures ToShortId(s) == ToShortId(s[i + |Marker|..])
  {
    SplitLastAfterFirst(s, Marker, i);
  }

  /** Taking the short identifier twice changes nothing. */
  lemma ToShortIdIdempotent(value: string)
    ensures ToShortId(ToShortId(value)) == ToShortId(value)
  {
    ToShortIdWithoutMarker(ToShortId(value));
  }

  /** Text lacking one of the marker's characters cannot contain it. */
  lemma LacksMarkerChar(s: string, k: nat)
    requires k < |Marker|
    requires forall j :: 0 <= j < |s| ==> s[j] != Marker[k]
    ensures !Contains(s, Marker)
  {
    forall i: nat | i <= |s|
      ensures !OccursAt(s, Marker, i)
    {
      if i + |Marker| <= |s| {
        assert s[i..i + |Marker|][k] == s[i + k];
      }
    }
  }

  /** An abstract URL of the form the repository's examples use loses
      everything up to and including the marker. */
  lemma ToShortIdOfAbstractUrl(r: string)
    requires !Contains(r, Marker)
    ensures ToShortId("https://arxiv.org/abs/" + r) == r
  {
    assert "https://arxiv.org/abs/" + r == "https://" + Marker + r;
    ToShortIdAfterLastMarker("https://", r);
  }

  /** The identifiers in the repository's URL examples hold no marker. */
  lemma ExampleIdsLackMarker()
    ensures !Contains("2107.05580v1", Marker)
    ensures !Contains("quant-ph/0201082v1", Marker)
    ensures !Contains("1409.0473v7", Marker)
  {
    LacksMarkerChar("2107.05580v1", 0);
    LacksMarkerChar("quant-ph/0201082v1", 11);
    LacksMarkerChar("1409.0473v7", 0);
  }

  /** The repository's examples of `ToShortId`: text without the marker is
      returned unchanged. */
  lemma ToShortIdPlainExamples()
    ensures ToShortId("some-other-url") == "some-other-url"
    ensures ToShortId("") == ""
  {
    LacksMarkerChar("some-other-url", 0);
    ToShortIdWithoutMarker("some-other-url");
    LacksMarkerChar("", 0);
    ToShortIdWithoutMarker("");
  }

  /** The marker is matched case-sensitively: an upper-case host is kept. */
  lemma ToShortIdIsCaseSensitive()
    ensures ToShortId("https://ARXIV.ORG/ABS/1409.0473v7") == "https://ARXIV.ORG/ABS/1409.0473v7"
  {
    LacksMarkerChar("https://ARXIV.ORG/ABS/1409.0473v7", 0);
    ToShortIdWithoutMarker("https://ARXIV.ORG/ABS/1409.0473v7");
  }

  // ---------------------------------------------------------------------
  // Display title

  const TitleSeparator: string := ": "

  /** `paper.DisplayTitle`: the identifier, a colon and a space, then the
      title (nothing for a missing title). */
  function DisplayTitle(paper: ArxivPaper): (r: string)
    ensures |r| == |paper.id| + |TitleSeparator| + |paper.title.GetOr("")|
    ensures IsPrefix(paper.id + TitleSeparator, r)
    ensures IsSuffix(paper.title.GetOr(""), r)
  {
    var r := paper.id + TitleSeparator + paper.title.GetOr("");
    assert r[..|paper.id| + 2] == paper.id + TitleSeparator;
    assert r[|paper.id| + 2..] == paper.title.GetOr("");
    r
  }

  /** Reading a display title back: the text before and after the first
      colon-space. */
  function SplitDisplayTitle(text: string): Option<(string, string)> {
    match IndexOf(text, TitleSeparator, 0)
    case None => None
    case Some(i) => Some((text[..i], text[i + |TitleSeparator|..]))
  }

  /** A display title determines the identifier and the title, provided the
      identifier holds no colon (arXiv identifiers never do). */
  lemma DisplayTitleSplits(paper: ArxivPaper)
    requires forall k :: 0 <= k < |paper.id| ==> paper.id[k] != ':'
    ensures SplitDisplayTitle(DisplayTitle(paper)) == Some((paper.id, paper.title.GetOr("")))
  {
    var s := DisplayTitle(paper);
    var n := |paper.id|;
    assert OccursAt(s, TitleSeparator, n) by { assert s[n..n + 2] == TitleSeparator; }
    forall j: nat | j < n
      ensures !OccursAt(s, TitleSeparator, j)
    {
      assert s[j] == paper.id[j];
    }
    assert IndexOf(s, TitleSeparator, 0) == Some(n);
    assert s[..n] == paper.id;
    assert s[n + 2..] == paper.title.GetOr("");
  }

  // ---------------------------------------------------------------------
  // Metadata text

  /** `paper.MetadataString`: the authors and categories as camel-case JSON. */
  function MetadataString(paper: ArxivPaper): (text: string)
    ensures |text| > 0 && text[0] == '{'
  {
    Json.EncodeMetadata(DocumentMetadata(paper.authors, paper.categories))
  }

  /** The metadata text reads back as the paper's authors and categories,
      in their original order. */
  lemma MetadataStringRoundTrip(paper: ArxivPaper)
    ensures Json.DecodeMetadata(MetadataString(paper))
         == Success(Some(DocumentMetadata(paper.authors, paper.categories)))
  {
    Json.MetadataRoundTrip(DocumentMetadata(paper.authors, paper.categories));
  }
}
