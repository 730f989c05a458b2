/**
  Building the rendering context of one device row: the `hostname` cell is
  copied verbatim, every other cell becomes its parsed literal when the
  literal parser accepts it and stays the raw string otherwise.
 */
module RowContext {
  import opened Options
  import opened Literals

  /** One record of the variables table, column name to raw cell text. */
  type Row = map<string, string>

  /** The variables handed to the template, variable name to typed value. */
  type Context = map<string, Value>

  /** The one column that is never coerced and names the output file. */
  const HostnameColumn: string := "hostname"

  /** The value one cell contributes to the context. */
  function Coerce(parse: Parser, column: string, raw: string): (v: Value)
    ensures column == HostnameColumn ==> v == Str(raw)
    ensures column != HostnameColumn ==> (v == Str(raw) <==> parse(raw) == None || parse(raw) == Some(Str(raw)))
    ensures column != HostnameColumn && parse(raw).Some? ==> v == parse(raw).value
  {
    if column == HostnameColumn then Str(raw)
    else
      match parse(raw)
      case Some(v) => v
      case None => Str(raw)
  }

  /** Key-wise coercion of a whole row. It is total: no row makes it fail. */
  function BuildContext(parse: Parser, row: Row): (ctx: Context)
    ensures ctx.Keys == row.Keys
    ensures HostnameColumn in row ==> ctx[HostnameColumn] == Str(row[HostnameColumn])
    ensures forall k :: k in row && k != HostnameColumn && parse(row[k]).Some? ==>
              ctx[k] == parse(row[k]).value
    ensures forall k :: k in row && k != HostnameColumn && parse(row[k]).None? ==>
              ctx[k] == Str(row[k])
  {
    map k | k in row :: Coerce(parse, k, row[k])
  }

  /** The context building loop, one column at a time in whatever order the
      row yields its columns; the order does not matter. */
  method BuildContextByLoop(parse: Parser, row: Row) returns (ctx: Context)
    ensures ctx == BuildContext(parse, row)
  {
    ctx := map[];
    var pending := row.Keys;
    while pending != {}
      invariant pending <= row.Keys
      invariant ctx.Keys == row.Keys - pending
      invariant forall k :: k in ctx ==> ctx[k] == Coerce(parse, k, row[k])
      decreases pending
    {
      var key :| key in pending;
      var value := row[key];
      if key == HostnameColumn {
        ctx := ctx[key := Str(value)];
      } else {
        match parse(value) {
          case Some(v) => ctx := ctx[key := v];
          case None => ctx := ctx[key := Str(value)];
        }
      }
      pending := pending - {key};
    }
  }

  /** Every context value is either the parser's result for its cell or the
      cell's raw text: coercion never invents a value. */
  lemma CoercionIsParseOrRaw(parse: Parser, row: Row)
    ensures forall k :: k in row ==>
              var v := BuildContext(parse, row)[k];
              v == Str(row[k]) || parse(row[k]) == Some(v)
  {
  }

  /** Coercion is key-wise: changing one cell changes only that cell's
      context entry. */
  lemma BuildContextUpdate(parse: Parser, row: Row, column: string, raw: string)
    ensures BuildContext(parse, row[column := raw])
         == BuildContext(parse, row)[column := Coerce(parse, column, raw)]
  {
    var lhs := BuildContext(parse, row[column := raw]);
    var rhs := BuildContext(parse, row)[column := Coerce(parse, column, raw)];
    assert lhs.Keys == rhs.Keys;
    forall k | k in lhs
      ensures lhs[k] == rhs[k]
    {
    }
  }
}
