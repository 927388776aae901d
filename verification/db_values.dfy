/** The values a Dapper type handler sees: what a column read hands to
    `Parse`, and the parameter `SetValue` fills in. */
module DbValues {
  import opened Wrappers

  /** The object passed to `Parse`: a C# `null`, `DBNull.Value`, a string,
      or another object, represented by what its `ToString()` gives. */
  datatype Cell = Null | DbNull | Text(s: string) | Other(display: string)

  /** `value as string`: only a string is one. */
  function AsString(c: Cell): (r: Option<string>)
    ensures r.Some? <==> c.Text?
  {
    if c.Text? then Some(c.s) else None
  }

  /** `value?.ToString()`: `DBNull.ToString()` is the empty string. */
  function ToStringOf(c: Cell): (r: Option<string>)
    ensures r.None? <==> c.Null?
    ensures c.DbNull? ==> r == Some("")
    ensures c.Text? ==> r == Some(c.s)
  {
    match c
    case Null => None
    case DbNull => Some("")
    case Text(s) => Some(s)
    case Other(d) => Some(d)
  }

  /** The `DbType`s the handlers set. */
  datatype DbType = String

  /** A parameter value: `DBNull.Value` or a string. */
  datatype ParameterValue = DbNullValue | StringValue(s: string)

  /** An `IDbDataParameter` after `SetValue`. */
  datatype Parameter = Parameter(dbType: DbType, value: ParameterValue)

  /** The cell a column written from a parameter value reads back as. */
  function ReadBack(v: ParameterValue): (c: Cell)
    ensures v.DbNullValue? <==> c == DbNull
    ensures v.StringValue? ==> c == Text(v.s)
  {
    match v
    case DbNullValue => DbNull
    case StringValue(s) => Text(s)
  }
}
