/**
  The records of the library: the expanded `Header`, the deserialised JSON data file
  (`JsonHeader`, `JsonData`), the finished message and the reasons a build panics.
 */
module Records {
  import Json

  /** Each `unwrap` of the pipeline that can fail, with what it failed on. */
  datatype Panic =
    | MissingKey(key: string)    // `json.get(key)` found no such field
    | NotAString(key: string)    // the field exists but `as_str()` found no string
    | MissingHeader(index: nat)  // `headers.get(i)` found no header for body `i`

  /** One recipient's header fields. */
  datatype Header = Header(from: string, recipient: string, subject: string)
  {
    /** `Header::create`: stores the three arguments as they are. */
    static function Create(from: string, recipient: string, subject: string): (h: Header)
      ensures h.from == from && h.recipient == recipient && h.subject == subject
    {
      Header(from, recipient, subject)
    }
  }

  /** The `header` object of the data file: one sender and subject for a list of recipients. */
  datatype JsonHeader = JsonHeader(from: string, recipients: seq<string>, subject: string)

  /** The data file: its header and one substitution record per body. */
  datatype JsonData = JsonData(header: JsonHeader, bodies: seq<Json.Value>)

  /** A finished message: the From, To and Subject headers and the plain-text body. */
  datatype Message = Message(from: string, to: string, subject: string, body: string)
}
