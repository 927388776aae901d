/** `MetadataTypeHandler`: the `Metadata` column holds the camelCase JSON
    text of a `DocumentMetadata`, and reads back as an empty value when it
    holds nothing. */
module MetadataTypeHandler {
  import opened Wrappers
  import opened Text
  import opened Domain
  import opened DbValues
  import Json
  import ArxivExtensions

  /** `SetValue`: a string parameter holding the JSON text, or `DBNull`
      for a null value. */
  function SetValue(value: Option<DocumentMetadata>): (p: Parameter)
    ensures p.dbType == String
    ensures value.None? <==> p.value == DbNullValue
    ensures value.Some? ==> p.value.StringValue? && Json.DecodeMetadata(p.value.s) == Success(value)
    ensures value.Some? ==> !AllWhiteSpace(p.value.s)
  {
    match value
    case None => Parameter(String, DbNullValue)
    case Some(m) =>
      EncodedText(m);
      Parameter(String, StringValue(Json.EncodeMetadata(m)))
  }

  /** The JSON text of a metadata value is not blank and decodes back to
      it. */
  lemma EncodedText(m: DocumentMetadata)
    ensures !AllWhiteSpace(Json.EncodeMetadata(m))
    ensures Json.DecodeMetadata(Json.EncodeMetadata(m)) == Success(Some(m))
  {
    Json.MetadataRoundTrip(m);
    StartsNonBlank(Json.EncodeMetadata(m));
  }

  lemma StartsNonBlank(text: string)
    requires |text| > 0 && text[0] == '{'
    ensures !AllWhiteSpace(text)
  {
    assert !IsWhiteSpace(text[0]);
  }

  /** `Parse`. Anything but a string, and a string of white space only,
      gives the empty metadata; so does the JSON literal `null`. Malformed
      JSON raises the deserialiser's exception. The result is never
      null. */
  function Parse(value: Cell): (r: Result<DocumentMetadata, Error>)
    ensures !value.Text? ==> r == Success(EmptyMetadata)
    ensures value.Text? && AllWhiteSpace(value.s) ==> r == Success(EmptyMetadata)
    ensures value.Text? && !AllWhiteSpace(value.s) ==>
              match Json.DecodeMetadata(value.s)
              case Failure(e) => r == Failure(e)
              case Success(m) => r == Success(m.GetOr(EmptyMetadata))
  {
    var json := AsString(value);
    if IsNullOrWhiteSpace(json) then Success(EmptyMetadata)
    else
      var result :- Json.DecodeMetadata(json.value);
      Success(result.GetOr(EmptyMetadata))
  }

  /** `Parse` inverts `SetValue` for every metadata value: both lists come
      back, in their order. */
  lemma ParseSetValue(m: DocumentMetadata)
    ensures Parse(ReadBack(SetValue(Some(m)).value)) == Success(m)
  {
    var p := SetValue(Some(m));
    assert ReadBack(p.value) == Text(p.value.s);
  }

  /** A null written through `SetValue` reads back as the empty metadata,
      not as null. */
  lemma ParseSetNull()
    ensures Parse(ReadBack(SetValue(None).value)) == Success(EmptyMetadata)
  {
  }

  /** The `Metadata` text the ingestion stores for a paper reads back
      through `Parse` as the paper's authors and categories. */
  lemma ParseStoredMetadata(paper: ArxivPaper)
    ensures Parse(Text(ArxivExtensions.MetadataString(paper))) == Success(DocumentMetadata(paper.authors, paper.categories))
  {
    EncodedText(DocumentMetadata(paper.authors, paper.categories));
  }
}
