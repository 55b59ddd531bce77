/** The reverse endpoint's handler, applied to a request body that has
    already been parsed into a key-to-text map. The host name and the
    address it resolves to are inputs (name resolution is not modelled). */
module ReverseService {
  import opened Records
  import opened Words

  /** HTTP status and JSON body of a handler's answer. */
  datatype Response = Response(status: nat, body: Record)

  const StatusOk: nat := 200
  const StatusBadRequest: nat := 400
  const NoTextProvided := "No text provided"

  /** The keys of a successful reverse response. */
  const SuccessKeys: set<string> := {"reversed_text", "hostname", "ip_address"}

  /** The `reverse_text` handler: a body with `text` gets the word-wise
      reversal together with the host's name and address; a body without
      it is refused with 400 and a fixed error record. */
  function ReverseText(data: Record, hostname: string, ipAddress: string): (r: Response)
    ensures r.status == StatusOk <==> "text" in data
    ensures "text" in data ==>
              && r.body.Keys == SuccessKeys
              && Split(r.body["reversed_text"]) == ReverseEach(Split(data["text"]))
              && Normalised(r.body["reversed_text"])
              && r.body["hostname"] == hostname
              && r.body["ip_address"] == ipAddress
    ensures "text" !in data ==>
              r.status == StatusBadRequest && r.body.Keys == {"error"} &&
              r.body["error"] == NoTextProvided
  {
    if "text" in data then
      var reversed := ReverseWords(data["text"]);
      ReverseWordsSplit(data["text"]);
      ReverseWordsNormalised(data["text"]);
      Response(StatusOk, map["reversed_text" := reversed,
                             "hostname" := hostname,
                             "ip_address" := ipAddress])
    else
      Response(StatusBadRequest, map["error" := NoTextProvided])
  }

  /** Sending the reversed text back through the endpoint restores the
      original words, single-spaced. */
  lemma ReverseTextRoundTrip(data: Record, hostname: string, ipAddress: string)
    requires "text" in data
    ensures var once := ReverseText(data, hostname, ipAddress).body;
            var twice := ReverseText(map["text" := once["reversed_text"]], hostname, ipAddress).body;
            twice["reversed_text"] == Join(Split(data["text"]))
  {
    ReverseWordsTwice(data["text"]);
  }

  /** Only the `text` key of the body matters: other keys are ignored. */
  lemma ReverseTextIgnoresOtherKeys(data: Record, hostname: string, ipAddress: string)
    requires "text" in data
    ensures ReverseText(data, hostname, ipAddress) ==
            ReverseText(map["text" := data["text"]], hostname, ipAddress)
  {
  }
}
