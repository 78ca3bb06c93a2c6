/** Result records as the corpus returns them (one dict per row, see
    llm4crs/query/query_tool.py lines 46-50) and the serialisation
    collaborators the truncation code uses. */
module Records {
  import opened Text

  /** A field value: the text of a string column, or any other scalar, of which
      the model keeps only what Python's `str(v)` gives for it. */
  datatype Value = Text(s: string) | Scalar(shown: string)

  /** One key/value pair of a record; a record is the dict's items in order. */
  datatype Field = Field(key: string, value: Value)

  type Record = seq<Field>

  /** Python's `str(v)`. */
  function Str(v: Value): string
  {
    match v
    case Text(s) => s
    case Scalar(shown) => shown
  }

  /** The number of words of a value once stringified. */
  function WordCount(v: Value): nat
  {
    |Words(Str(v))|
  }

  /** Every value of the record is a string (the state after one shrinking pass). */
  predicate AllText(r: Record)
  {
    forall i | 0 <= i < |r| :: r[i].value.Text?
  }

  predicate SameKeys(r: Record, r': Record)
  {
    |r| == |r'| && forall i | 0 <= i < |r| :: r'[i].key == r[i].key
  }

  /** The external serialisation and counting functions: the tokenizer
      (`num_tokens_from_string`), `json.dumps` of one record and of a list of
      records, and the emergency `cut_list(records, budget)`. None of them is
      specified beyond its type. */
  datatype Serialiser = Serialiser(
    tokens: string -> nat,
    dumpRecord: Record -> string,
    dumpList: seq<Record> -> string,
    cutList: (seq<Record>, int) -> seq<Record>)
}
