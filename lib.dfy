/**
  The library's entry point: an `EmailMessage` names the template file and the data
  file, and building it expands the headers, renders the bodies and pairs them up.
  Reading the two files is left to the caller: the template's text and the parsed
  data come in as arguments.
 */
module Lib {
  import opened Wrappers
  import opened Records
  import Json
  import Bodies
  import Headers
  import Assembly

  /** Where the template and the data are read from. */
  datatype EmailMessage = EmailMessage(emailPath: string, jsonPath: string)
  {
    /** `EmailMessage::create`: stores both paths as they are. */
    static function Create(emailPath: string, jsonPath: string): (m: EmailMessage)
      ensures m.emailPath == emailPath && m.jsonPath == jsonPath
    {
      EmailMessage(emailPath, jsonPath)
    }
  }

  /**
    `build_emails` once the files are read: headers from the data's recipients, sender
    and subject; one body per data record; then the messages. A body that fails to
    render stops the build first; otherwise running out of headers stops it at the
    first body without one.
   */
  function BuildEmails(contents: string, data: JsonData): (r: Result<seq<Message>, Panic>)
    ensures r.Ok? <==> Bodies.Bodies(contents, data.bodies).Ok? && |data.bodies| <= |data.header.recipients|
    ensures r.Ok? ==> |r.value| == |data.bodies|
    ensures r.Err? && Bodies.Bodies(contents, data.bodies).Err? ==> r.error == Bodies.Bodies(contents, data.bodies).error
    ensures r.Err? && Bodies.Bodies(contents, data.bodies).Ok? ==> r.error == MissingHeader(|data.header.recipients|)
  {
    var headers := Headers.GetHeaders(data.header.recipients, data.header.from, data.header.subject);
    match Bodies.Bodies(contents, data.bodies)
    case Err(e) => Err(e)
    case Ok(bodies) =>
      if |bodies| <= |headers| then Ok(Assembly.Emails(headers, bodies))
      else Err(MissingHeader(|headers|))
  }

  /**
    A successful build has one message per data record: message `i` is from the data's
    sender to its `i`-th recipient, under its subject, with the template rendered
    against record `i` as body.
   */
  lemma BuildEmailsMessages(contents: string, data: JsonData)
    requires BuildEmails(contents, data).Ok?
    ensures forall i :: 0 <= i < |data.bodies| ==>
      Bodies.Body(contents, data.bodies[i]).Ok? &&
      BuildEmails(contents, data).value[i] ==
        Message(data.header.from, data.header.recipients[i], data.header.subject, Bodies.Body(contents, data.bodies[i]).value)
  {
    var h := data.header;
    var headers := Headers.GetHeaders(h.recipients, h.from, h.subject);
    var bodies := Bodies.Bodies(contents, data.bodies).value;
    Bodies.BodiesValues(contents, data.bodies);
    Assembly.EmailsPairByIndex(headers, bodies);
  }

  /**
    A build fails on a data record exactly when that record's body fails, with the
    failure of the first such record.
   */
  lemma BuildEmailsFirstFailure(contents: string, data: JsonData)
    requires exists i :: 0 <= i < |data.bodies| && Bodies.Body(contents, data.bodies[i]).Err?
    ensures BuildEmails(contents, data).Err?
    ensures exists i :: 0 <= i < |data.bodies| && Bodies.Body(contents, data.bodies[i]) == Err(BuildEmails(contents, data).error) &&
                        forall j :: 0 <= j < i ==> Bodies.Body(contents, data.bodies[j]).Ok?
  {
    Bodies.BodiesOkIff(contents, data.bodies);
    Bodies.BodiesFirstError(contents, data.bodies);
  }

  /** Without data records the build yields no messages, whatever the recipients. */
  lemma NoRecordsNoMessages(contents: string, data: JsonData)
    requires data.bodies == []
    ensures BuildEmails(contents, data) == Ok([])
  {
  }
}
