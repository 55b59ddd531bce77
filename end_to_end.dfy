/** The load client driven against the reverse endpoint: the payloads the
    client generates, and what its table looks like when the service
    answers every request, or when no request gets through. */
module EndToEnd {
  import opened Records
  import opened Words
  import opened ReverseService
  import opened LoadClient

  /** The four canned phrases a payload's text is drawn from. */
  const Phrases: seq<string> := ["Hello world", "Python is awesome", "Flask is fun", "Docker is cool"]

  /** The payload for random draw `choice` (`random.randint(0, 3)`). */
  function GeneratePayload(choice: nat): (p: Record)
    requires choice < |Phrases|
    ensures p.Keys == {"text"} && p["text"] == "Payload " + Phrases[choice]
  {
    map["text" := "Payload " + Phrases[choice]]
  }

  /** A generated payload is never empty, so it is always POSTed. */
  lemma GeneratedPayloadIsPosted(url: string, choice: nat)
    requires choice < |Phrases|
    ensures SelectCall(url, Some(GeneratePayload(choice))) == Post(url, GeneratePayload(choice))
  {
    assert "text" in GeneratePayload(choice);
  }

  /** A generated payload always carries `text`, so the service answers 200
      and its reply has the prefix's and the phrase's words reversed. */
  lemma GeneratedPayloadIsAccepted(choice: nat, hostname: string, ipAddress: string)
    requires choice < |Phrases|
    ensures ReverseText(GeneratePayload(choice), hostname, ipAddress).status == StatusOk
    ensures Split(ReverseText(GeneratePayload(choice), hostname, ipAddress).body["reversed_text"])
            == ReverseEach(Split("Payload " + Phrases[choice]))
  {
  }

  /** A request whose body the service accepts and whose JSON reply decodes
      becomes a record with exactly the success keys. */
  lemma ServedRequestRecord(url: string, payload: Record, send: HttpCall -> Attempt,
                            raw: string, hostname: string, ipAddress: string)
    requires "text" in payload
    requires send(Post(url, payload)) == Body(raw, Some(ReverseText(payload, hostname, ipAddress).body))
    ensures MakeRequest(url, Some(payload), send).Keys == SuccessKeys
  {
    assert SelectCall(url, Some(payload)) == Post(url, payload);
  }

  /** The client does not look at the status: the service's 400 reply for a
      body without `text` gives the same record as a transport failure whose
      message happens to be the same words. */
  lemma RefusalLooksLikeTransportError(raw: string, hostname: string, ipAddress: string)
    ensures Classify(Body(raw, Some(ReverseText(map[], hostname, ipAddress).body)))
            == Classify(TransportError(NoTextProvided))
  {
  }

  /** When every submission fails in transport, every result holds only an
      `error` key, so the header is exactly {"error"} (for a non-empty run). */
  lemma AllTransportErrors(url: string, payloads: seq<Record>, network: nat -> HttpCall -> Attempt)
    requires |payloads| > 0
    requires forall j :: 0 <= j < |payloads| ==>
               network(j)(SelectCall(url, Some(payloads[j]))).TransportError?
    ensures forall j :: 0 <= j < |payloads| ==> Submitted(url, payloads, network)[j].Keys == {"error"}
    ensures KeyUnion(Submitted(url, payloads, network)) == {"error"}
  {
    var sub := Submitted(url, payloads, network);
    forall k | k in KeyUnion(sub) ensures k == "error" {
      KeyUnionMembers(sub, k);
    }
    KeyUnionMembers(sub, "error");
    assert "error" in sub[0];
  }

  /** When every payload carries `text` and every submission is answered by
      the service with its decoded JSON reply, the header is exactly
      `reversed_text`, `hostname` and `ip_address`. */
  lemma AllServed(url: string, payloads: seq<Record>, network: nat -> HttpCall -> Attempt,
                  hostnames: seq<string>, addresses: seq<string>)
    requires |payloads| > 0 && |hostnames| == |addresses| == |payloads|
    requires forall j :: 0 <= j < |payloads| ==>
               "text" in payloads[j] &&
               network(j)(SelectCall(url, Some(payloads[j]))).Body? &&
               network(j)(SelectCall(url, Some(payloads[j]))).parsed ==
                 Some(ReverseText(payloads[j], hostnames[j], addresses[j]).body)
    ensures KeyUnion(Submitted(url, payloads, network)) == SuccessKeys
  {
    var sub := Submitted(url, payloads, network);
    forall j | 0 <= j < |payloads| ensures sub[j].Keys == SuccessKeys {
      assert SelectCall(url, Some(payloads[j])) == Post(url, payloads[j]);
    }
    forall k | k in KeyUnion(sub) ensures k in SuccessKeys {
      KeyUnionMembers(sub, k);
    }
    forall k | k in SuccessKeys ensures k in KeyUnion(sub) {
      KeyUnionMembers(sub, k);
      assert k in sub[0];
    }
  }
}
