/** The load client: how one request attempt becomes a result record
    (`make_request`), how the results are collected (`main`), and how they
    are shaped into a table (`save_to_csv`). The network is a parameter:
    for each submission it maps the HTTP call made to what came back. */
module LoadClient {
  import opened Records

  /** The HTTP call `make_request` issues. */
  datatype HttpCall = Get(url: string) | Post(url: string, json: Record)

  /** What one call produced: a transport failure with its text, or a
      response body together with its JSON decoding, if it decoded. */
  datatype Attempt = TransportError(message: string) | Body(text: string, parsed: Option<Record>)

  const InvalidJsonResponse := "Invalid JSON response"

  /** `if payload:` — a present, non-empty payload is POSTed as JSON; an
      absent or empty one falls back to GET. */
  function SelectCall(url: string, payload: Option<Record>): (c: HttpCall)
    ensures c.url == url
    ensures c.Post? <==> payload.Some? && payload.value != map[]
    ensures c.Post? ==> c.json == payload.value
  {
    if payload.Some? && payload.value != map[] then Post(url, payload.value) else Get(url)
  }

  /** The nested try/except of `make_request`: a decoded body is returned as
      it is, an undecodable one becomes an invalid-JSON record carrying the
      raw text, a transport failure a record holding only its message. */
  function Classify(a: Attempt): (r: Record)
    ensures a.TransportError? ==> r.Keys == {"error"} && r["error"] == a.message
    ensures a.Body? && a.parsed.None? ==>
              r.Keys == {"error", "content"} &&
              r["error"] == InvalidJsonResponse && r["content"] == a.text
    ensures a.Body? && a.parsed.Some? ==> r == a.parsed.value
  {
    match a
    case TransportError(message) => map["error" := message]
    case Body(text, None) => map["error" := InvalidJsonResponse, "content" := text]
    case Body(_, Some(json)) => json
  }

  /** `make_request(url, payload)` where `send` answers the call it makes.
      Every attempt yields a record: the decoded body, or one whose `error`
      key says what went wrong. */
  function MakeRequest(url: string, payload: Option<Record>, send: HttpCall -> Attempt): (r: Record)
    ensures var a := send(SelectCall(url, payload));
            if a.Body? && a.parsed.Some? then r == a.parsed.value
            else "error" in r && r.Keys <= {"error", "content"}
  {
    Classify(send(SelectCall(url, payload)))
  }

  // ---------------------------------------------------------------------
  // save_to_csv

  /** The union of the key sets of all records. */
  function KeyUnion(data: seq<Record>): set<string> {
    if data == [] then {} else KeyUnion(data[..|data| - 1]) + data[|data| - 1].Keys
  }

  /** A key is in the union exactly when some record has it. */
  lemma {:induction false} KeyUnionMembers(data: seq<Record>, k: string)
    ensures k in KeyUnion(data) <==> exists i :: 0 <= i < |data| && k in data[i]
  {
    if data != [] {
      var init := data[..|data| - 1];
      KeyUnionMembers(init, k);
      if exists i :: 0 <= i < |init| && k in init[i] {
        var i :| 0 <= i < |init| && k in init[i];
        assert data[i] == init[i];
      }
      if exists i :: 0 <= i < |data| && k in data[i] {
        var i :| 0 <= i < |data| && k in data[i];
        if i < |init| { assert init[i] == data[i]; }
      }
    }
  }

  /** Every record's keys are among the union's. */
  lemma KeyUnionCovers(data: seq<Record>)
    ensures forall i :: 0 <= i < |data| ==> data[i].Keys <= KeyUnion(data)
  {
    forall i, k | 0 <= i < |data| && k in data[i]
      ensures k in KeyUnion(data)
    {
      KeyUnionMembers(data, k);
    }
  }

  /** The union only grows as more records are taken in. */
  lemma KeyUnionGrows(data: seq<Record>, j: nat, k: nat)
    requires j <= k <= |data|
    ensures KeyUnion(data[..j]) <= KeyUnion(data[..k])
  {
    forall key | key in KeyUnion(data[..j])
      ensures key in KeyUnion(data[..k])
    {
      KeyUnionMembers(data[..j], key);
      var i :| 0 <= i < j && key in data[..j][i];
      assert data[..k][i] == data[i];
      KeyUnionMembers(data[..k], key);
    }
  }

  /** The union depends on which records there are, not on their order. */
  lemma KeyUnionOrderFree(a: seq<Record>, b: seq<Record>)
    requires multiset(a) == multiset(b)
    ensures KeyUnion(a) == KeyUnion(b)
  {
    forall key | key in KeyUnion(a)
      ensures key in KeyUnion(b)
    {
      KeyUnionMembers(a, key);
      var i :| 0 <= i < |a| && key in a[i];
      assert a[i] in multiset(b);
      var j :| 0 <= j < |b| && b[j] == a[i];
      KeyUnionMembers(b, key);
    }
    forall key | key in KeyUnion(b)
      ensures key in KeyUnion(a)
    {
      KeyUnionMembers(b, key);
      var j :| 0 <= j < |b| && key in b[j];
      assert b[j] in multiset(a);
      var i :| 0 <= i < |a| && a[i] == b[j];
      KeyUnionMembers(a, key);
    }
  }

  /** The loop `for item in data: all_keys.update(item.keys())`. */
  method CollectKeys(data: seq<Record>) returns (allKeys: set<string>)
    ensures allKeys == KeyUnion(data)
    ensures forall i :: 0 <= i < |data| ==> data[i].Keys <= allKeys
  {
    allKeys := {};
    for n := 0 to |data|
      invariant allKeys == KeyUnion(data[..n])
    {
      assert data[..n + 1][..n] == data[..n];
      allKeys := allKeys + data[n].Keys;
    }
    assert data[..|data|] == data;
    KeyUnionCovers(data);
  }

  /** One CSV row as `DictWriter` fills it: every header column, holding the
      record's value or, where the record lacks the column, the empty text. */
  function FillRow(header: set<string>, rec: Record): (row: Record)
    requires rec.Keys <= header
    ensures row.Keys == header
    ensures forall k :: k in rec ==> row[k] == rec[k]
    ensures forall k :: k in header && k !in rec ==> row[k] == ""
  {
    map k | k in header :: if k in rec then rec[k] else ""
  }

  /** `DictWriter.writerows`: refuses (None) when some record has a key
      outside the header, otherwise gives one filled row per record. */
  function WriteRows(header: set<string>, data: seq<Record>): (rows: Option<seq<Record>>)
    ensures rows.Some? <==> forall i :: 0 <= i < |data| ==> data[i].Keys <= header
    ensures rows.Some? ==>
              |rows.value| == |data| &&
              forall i :: 0 <= i < |data| ==> rows.value[i] == FillRow(header, data[i])
  {
    if forall i :: 0 <= i < |data| ==> data[i].Keys <= header then
      Some(seq(|data|, i requires 0 <= i < |data| && data[i].Keys <= header => FillRow(header, data[i])))
    else
      None
  }

  /** The table `save_to_csv` writes: the header (a set, since Python's set
      order is unspecified) and the rows below it. */
  datatype Table = Table(header: set<string>, rows: seq<Record>)

  /** `save_to_csv(data)`: the header is the union of all keys, and every
      record becomes one row over that header, its missing columns blank. */
  method SaveToCsv(data: seq<Record>) returns (t: Table)
    ensures t.header == KeyUnion(data)
    ensures |t.rows| == |data|
    ensures forall i :: 0 <= i < |data| ==>
              data[i].Keys <= t.header && t.rows[i].Keys == t.header &&
              (forall k :: k in data[i] ==> t.rows[i][k] == data[i][k]) &&
              (forall k :: k in t.header && k !in data[i] ==> t.rows[i][k] == "")
  {
    var allKeys := CollectKeys(data);
    var rows := WriteRows(allKeys, data);
    t := Table(allKeys, rows.value);
  }

  // ---------------------------------------------------------------------
  // main's collection loop

  /** The indices 0 .. n-1 in submission order. */
  function Indices(n: nat): (s: seq<nat>)
    ensures |s| == n && forall i :: 0 <= i < n ==> s[i] == i
  {
    seq(n, i requires 0 <= i < n => i)
  }

  predicate InRange(order: seq<nat>, n: nat) {
    forall i :: 0 <= i < |order| ==> order[i] < n
  }

  /** The elements of `xs` at the positions `order` lists, in that order. */
  function Pick<T>(xs: seq<T>, order: seq<nat>): (r: seq<T>)
    requires InRange(order, |xs|)
    ensures |r| == |order| && forall i :: 0 <= i < |order| ==> r[i] == xs[order[i]]
  {
    seq(|order|, i requires 0 <= i < |order| => xs[order[i]])
  }

  lemma PickAppend<T>(xs: seq<T>, u: seq<nat>, v: seq<nat>)
    requires InRange(u, |xs|) && InRange(v, |xs|)
    ensures InRange(u + v, |xs|)
    ensures Pick(xs, u + v) == Pick(xs, u) + Pick(xs, v)
  {
    assert forall i :: 0 <= i < |u + v| ==> (u + v)[i] == if i < |u| then u[i] else v[i - |u|];
  }

  /** Taking the same element out of two orders with equal multisets leaves
      equal multisets. */
  lemma RemoveMatching(a: seq<nat>, b: seq<nat>, k: nat)
    requires multiset(a) == multiset(b) && a != [] && k < |b| && b[k] == a[0]
    ensures multiset(a[1..]) == multiset(b[..k] + b[k + 1..])
  {
    var x := a[0];
    assert a == [x] + a[1..];
    assert b == b[..k] + [x] + b[k + 1..];
    calc {
      multiset(a[1..]);
      multiset(a) - multiset{x};
      multiset(b) - multiset{x};
      multiset(b[..k] + b[k + 1..]);
    }
  }

  /** Picking by two orders holding the same positions gives the same
      multiset of elements. */
  lemma {:induction false} PickMultiset<T>(xs: seq<T>, a: seq<nat>, b: seq<nat>)
    requires InRange(a, |xs|) && InRange(b, |xs|)
    requires multiset(a) == multiset(b)
    ensures multiset(Pick(xs, a)) == multiset(Pick(xs, b))
    decreases |a|
  {
    if a != [] {
      var x := a[0];
      assert x in multiset(b);
      var k :| 0 <= k < |b| && b[k] == x;
      var pre, post := b[..k], b[k + 1..];
      assert InRange(pre, |xs|) && InRange(post, |xs|) by {
        forall i | 0 <= i < |pre| ensures pre[i] < |xs| { assert pre[i] == b[i]; }
        forall i | 0 <= i < |post| ensures post[i] < |xs| { assert post[i] == b[k + 1 + i]; }
      }
      var rest := a[1..];
      assert InRange(rest, |xs|) && InRange([x], |xs|);
      assert a == [x] + rest;
      assert b == pre + ([x] + post);
      RemoveMatching(a, b, k);
      PickAppend(xs, pre, post);
      PickAppend(xs, [x], post);
      calc {
        multiset(Pick(xs, a));
        { PickAppend(xs, [x], rest); }
        multiset(Pick(xs, [x])) + multiset(Pick(xs, rest));
        { PickMultiset(xs, rest, pre + post); }
        multiset(Pick(xs, [x])) + multiset(Pick(xs, pre + post));
        multiset(Pick(xs, pre)) + multiset(Pick(xs, [x] + post));
        { PickAppend(xs, pre, [x] + post); }
        multiset(Pick(xs, b));
      }
    } else {
      assert b == [] by { assert |multiset(b)| == 0; }
    }
  }

  /** A completion order: every submission index exactly once, as
      `as_completed` hands each future back once. */
  predicate IsCompletionOrder(order: seq<nat>, n: nat) {
    multiset(order) == multiset(Indices(n))
  }

  lemma CompletionOrderInRange(order: seq<nat>, n: nat)
    requires IsCompletionOrder(order, n)
    ensures InRange(order, n) && |order| == n
  {
    forall i | 0 <= i < |order|
      ensures order[i] < n
    {
      assert order[i] in multiset(Indices(n));
      var j :| 0 <= j < n && Indices(n)[j] == order[i];
    }
    assert |multiset(order)| == |multiset(Indices(n))|;
  }

  /** The results in submission order: submission j sends payload j and the
      network answers it with `network(j)`. */
  function Submitted(url: string, payloads: seq<Record>, network: nat -> HttpCall -> Attempt): (rs: seq<Record>)
    ensures |rs| == |payloads|
  {
    seq(|payloads|, j requires 0 <= j < |payloads| => MakeRequest(url, Some(payloads[j]), network(j)))
  }

  /** main's `for future in as_completed(...): responses.append(future.result())`:
      one record per submitted payload, taken in completion order, so the
      responses are a permutation of the results in submission order. */
  method CollectResponses(url: string, payloads: seq<Record>, completion: seq<nat>,
                          network: nat -> HttpCall -> Attempt)
    returns (responses: seq<Record>)
    requires IsCompletionOrder(completion, |payloads|)
    ensures |responses| == |completion| == |payloads|
    ensures forall i :: 0 <= i < |completion| ==>
              completion[i] < |payloads| &&
              responses[i] == MakeRequest(url, Some(payloads[completion[i]]), network(completion[i]))
    ensures multiset(responses) == multiset(Submitted(url, payloads, network))
  {
    CompletionOrderInRange(completion, |payloads|);
    responses := [];
    for i := 0 to |completion|
      invariant |responses| == i
      invariant forall j :: 0 <= j < i ==>
                  responses[j] == MakeRequest(url, Some(payloads[completion[j]]), network(completion[j]))
    {
      var j := completion[i];
      responses := responses + [MakeRequest(url, Some(payloads[j]), network(j))];
    }
    var sub := Submitted(url, payloads, network);
    PickMultiset(sub, completion, Indices(|payloads|));
    assert responses == Pick(sub, completion);
    assert sub == Pick(sub, Indices(|payloads|));
  }

  /** `main` after the warm-up: collect every response, then shape the table. */
  method RunLoadTest(url: string, payloads: seq<Record>, completion: seq<nat>,
                     network: nat -> HttpCall -> Attempt)
    returns (t: Table)
    requires IsCompletionOrder(completion, |payloads|)
    ensures |t.rows| == |completion| == |payloads|
    ensures t.header == KeyUnion(Submitted(url, payloads, network))
    ensures forall i :: 0 <= i < |completion| ==>
              completion[i] < |payloads| &&
              Submitted(url, payloads, network)[completion[i]].Keys <= t.header &&
              t.rows[i] == FillRow(t.header, Submitted(url, payloads, network)[completion[i]])
  {
    var responses := CollectResponses(url, payloads, completion, network);
    t := SaveToCsv(responses);
    KeyUnionOrderFree(responses, Submitted(url, payloads, network));
  }
}
