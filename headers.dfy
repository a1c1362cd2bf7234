/** Header expansion: one header per recipient, sharing the sender and subject. */
module Headers {
  import opened Records

  /** `get_headers`: each recipient, in order, paired with the shared sender and subject. */
  function GetHeaders(recipients: seq<string>, from: string, subject: string): (r: seq<Header>)
    ensures |r| == |recipients|
    ensures forall i :: 0 <= i < |recipients| ==> r[i] == Header.Create(from, recipients[i], subject)
  {
    if recipients == [] then []
    else [Header.Create(from, recipients[0], subject)] + GetHeaders(recipients[1..], from, subject)
  }

  /** The recipients of a list of headers, in order. */
  function RecipientsOf(headers: seq<Header>): (r: seq<string>)
    ensures |r| == |headers|
    ensures forall i :: 0 <= i < |headers| ==> r[i] == headers[i].recipient
  {
    if headers == [] then [] else [headers[0].recipient] + RecipientsOf(headers[1..])
  }

  /** The recipients can be read back from the expanded headers, and every header carries the shared fields. */
  lemma HeadersKeepRecipients(recipients: seq<string>, from: string, subject: string)
    ensures RecipientsOf(GetHeaders(recipients, from, subject)) == recipients
    ensures forall h <- GetHeaders(recipients, from, subject) :: h.from == from && h.subject == subject
  {
    var hs := GetHeaders(recipients, from, subject);
    assert forall h <- hs :: exists i :: 0 <= i < |hs| && hs[i] == h;
  }
}
