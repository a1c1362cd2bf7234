/** Message assembly: body `i` paired with header `i`. */
module Assembly {
  import opened Records

  /** The message for one header and one body. */
  function Compose(header: Header, body: string): Message
  {
    Message(header.from, header.recipient, header.subject, body)
  }

  /** The messages `generate_emails` produces: one per body, each with the header of the same index. */
  function Emails(headers: seq<Header>, bodies: seq<string>): (r: seq<Message>)
    requires |bodies| <= |headers|
    ensures |r| == |bodies|
    decreases |bodies|
  {
    if bodies == [] then []
    else
      var last := |bodies| - 1;
      Emails(headers, bodies[..last]) + [Compose(headers[last], bodies[last])]
  }

  /** Message `i` carries header `i`'s sender, recipient and subject, and body `i`. */
  lemma {:induction false} EmailsPairByIndex(headers: seq<Header>, bodies: seq<string>)
    requires |bodies| <= |headers|
    ensures forall i :: 0 <= i < |bodies| ==>
      Emails(headers, bodies)[i] == Message(headers[i].from, headers[i].recipient, headers[i].subject, bodies[i])
  {
    if bodies != [] {
      var last := |bodies| - 1;
      EmailsPairByIndex(headers, bodies[..last]);
      assert forall i :: 0 <= i < last ==> bodies[..last][i] == bodies[i];
    }
  }

  /** Headers beyond the number of bodies play no part. */
  lemma {:induction false} EmailsIgnoreSpareHeaders(headers: seq<Header>, spare: seq<Header>, bodies: seq<string>)
    requires |bodies| <= |headers|
    ensures Emails(headers + spare, bodies) == Emails(headers, bodies)
    decreases |bodies|
  {
    if bodies != [] {
      var last := |bodies| - 1;
      EmailsIgnoreSpareHeaders(headers, spare, bodies[..last]);
      assert (headers + spare)[last] == headers[last];
    }
  }

  /**
    `generate_emails`: walks the bodies by index, takes the header of the same index
    and pushes one message per body onto a growing list.
   */
  method GenerateEmails(headers: seq<Header>, bodies: seq<string>) returns (emails: seq<Message>)
    requires |bodies| <= |headers|
    ensures emails == Emails(headers, bodies)
    ensures |emails| == |bodies|
    ensures forall i :: 0 <= i < |bodies| ==>
      emails[i].from == headers[i].from && emails[i].to == headers[i].recipient &&
      emails[i].subject == headers[i].subject && emails[i].body == bodies[i]
  {
    emails := [];
    var i := 0;
    while i < |bodies|
      invariant 0 <= i <= |bodies|
      invariant emails == Emails(headers, bodies[..i])
    {
      var header := headers[i];
      var message := Message(header.from, header.recipient, header.subject, bodies[i]);
      assert bodies[..i + 1][..i] == bodies[..i];
      emails := emails + [message];
      i := i + 1;
    }
    assert bodies[..i] == bodies;
    EmailsPairByIndex(headers, bodies);
  }
}
