/** `UriTypeHandler`: the `PdfUri` column holds a URI's string form, and
    reads back as null when it holds nothing usable.

    `Uri.TryCreate(text, UriKind.RelativeOrAbsolute, out uri)` is the
    parameter `tryCreate`. */
module UriTypeHandler {
  import opened Wrappers
  import opened Text
  import opened Domain
  import opened DbValues

  /** `SetValue`: a string parameter holding `value.ToString()`, or
      `DBNull` for a null URI. */
  function SetValue(value: Option<Uri>): (p: Parameter)
    ensures p.dbType == String
    ensures value.None? <==> p.value == DbNullValue
    ensures value.Some? ==> p.value == StringValue(value.value.text)
  {
    Parameter(String, if value.Some? then StringValue(value.value.text) else DbNullValue)
  }

  /** `Parse`: null for a null cell and for text that is empty or white
      space (`DBNull` reads as empty text), null when `tryCreate` rejects
      the text, and the created URI otherwise. It never throws. */
  function Parse(value: Cell, tryCreate: string -> Option<Uri>): (r: Option<Uri>)
    ensures IsNullOrWhiteSpace(ToStringOf(value)) ==> r.None?
    ensures value.Null? || value.DbNull? ==> r.None?
    ensures !IsNullOrWhiteSpace(ToStringOf(value)) ==> r == tryCreate(ToStringOf(value).value)
  {
    var uriString := ToStringOf(value);
    if !IsNullOrWhiteSpace(uriString) then tryCreate(uriString.value) else None
  }

  /** `Parse` inverts `SetValue` for every URI whose string form is not
      blank and which `tryCreate` gives back from that form; a null URI
      reads back as null. */
  lemma ParseSetValue(value: Option<Uri>, tryCreate: string -> Option<Uri>)
    requires value.Some? ==> !AllWhiteSpace(value.value.text) && tryCreate(value.value.text) == value
    ensures Parse(ReadBack(SetValue(value).value), tryCreate) == value
  {
  }

  /** When a created URI's string form is the text it was created from, a
      parsed URI's string form is the stored text.

      The requires is an assumption about `Uri`, not a property of the
      handler: `Uri.ToString()` canonicalises (it may add a trailing `/` or
      change case in the host), and the handler's unit tests choose
      addresses on which it returns the text unchanged. Under that
      assumption the handler adds nothing of its own to the text. */
  lemma ParsedUriText(s: string, tryCreate: string -> Option<Uri>)
    requires forall t :: tryCreate(t).Some? ==> tryCreate(t).value.text == t
    ensures Parse(Text(s), tryCreate).Some? ==> Parse(Text(s), tryCreate).value.text == s
  {
  }
}
