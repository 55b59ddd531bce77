# Word reversal service and load client, modelled in Dafny

The repository is a small Flask service with a companion load-testing
client. This project models its two pieces of real logic.

* The `/reverse` handler (`python-api/app.py`). A request body holding
  `text` is answered with `' '.join(word[::-1] for word in text.split())`,
  together with the host's name and address. A body without `text` gets
  status 400 and `{"error": "No text provided"}`. Module `Words` models
  Python's argument-less `str.split()` with an explicit whitespace
  predicate: the characters `str.isspace()` accepts. It also models
  `' '.join` and slice reversal, and proves the properties of the
  composition. Module `ReverseService` models the handler over an
  already-parsed body map.
* The load client (`test_api.py`). Module `LoadClient` models three parts:
  - `make_request`: a method choice (POST for a truthy payload, else GET)
    and the three-way classification of an attempt into a result record;
  - `main`'s collection loop: one record appended per completed future;
  - `save_to_csv`: the loop that unions every record's keys into the
    header, then one row per record with the missing columns blank.

  The network is a parameter. For each submission it maps the HTTP call to
  what came back: a transport error, or a body with its JSON decoding if it
  decoded. The order in which `as_completed` hands back futures is also a
  parameter, required to list every submission exactly once.
* Module `EndToEnd` connects the two. The generated payloads are always
  POSTed and always accepted. A run where every request is served has the
  header `reversed_text`, `hostname`, `ip_address`. A run where every
  request fails in transport has the header `error` alone.

Files: `records.dfy` (shared `Option` and `Record`), `words.dfy`,
`reverse_service.dfy`, `load_client.dfy`, `end_to_end.dfy`.

## Model

| member | source | states |
|---|---|---|
| Words.IsSpace | python-api/app.py:21 | the definition: the characters `str.isspace()` accepts, the separators of an argument-less `str.split()`; `Split`, `SplitWord`, `SplitSkipsSpace` and `SplitEmptyIffBlank` are stated over it |
| Words.Split | python-api/app.py:21 | `str.split()` yields only words: non-empty and free of whitespace |
| Words.Join | python-api/app.py:21 | the definition of `' '.join`; its properties are `SplitJoin`, `JoinEnds`, `JoinNormalised` and `JoinEmptyIffNoWords` |
| Words.Reverse | python-api/app.py:21 | `w[::-1]` has the length of `w` |
| Words.ReverseAt | python-api/app.py:21 | position k of `w[::-1]` holds `w[len(w)-1-k]` |
| Words.ReverseInvolutive | python-api/app.py:21 | reversing a word twice gives the word back |
| Words.ReverseMultiset | python-api/app.py:21 | a reversed word has exactly the characters of the word |
| Words.ReverseKeepsWord | python-api/app.py:21 | the reverse of a word is again a word |
| Words.ReverseEachKeepsWords | python-api/app.py:21 | reversing every word of a word list leaves a word list |
| Words.ReverseEachInvolutive | python-api/app.py:21 | reversing every word twice restores the list |
| Words.ReverseEach | python-api/app.py:21 | the definition of the generator `word[::-1] for word in ...`; its properties are `ReverseEachKeepsWords` and `ReverseEachInvolutive` |
| Words.SplitWord | python-api/app.py:21 | a word followed by whitespace or nothing is split off whole, ahead of the rest's words |
| Words.SplitSkipsSpace | python-api/app.py:21 | a leading run of whitespace of any length and any whitespace characters is dropped whole; with `SplitWord` this fixes `split()` on every input |
| Words.SplitJoin | python-api/app.py:21 | `' '.join` of words splits back into exactly those words |
| Words.JoinEnds | python-api/app.py:21 | a join of words starts with the first word's first character and ends with the last word's last character |
| Words.JoinNormalised | python-api/app.py:21 | a join of words has no leading or trailing space, no whitespace but single plain spaces |
| Words.NormalisedJoinSplit | python-api/app.py:21 | a normalised text equals the join of its own split |
| Words.NormalisedIffFixedPoint | python-api/app.py:21 | normalised if and only if split-then-join leaves the text unchanged |
| Words.SplitEmptyIffBlank | python-api/app.py:21 | `split()` gives no words if and only if the text is empty or all whitespace |
| Words.JoinEmptyIffNoWords | python-api/app.py:21 | a join of words is empty if and only if there are no words |
| Words.ReverseWords | python-api/app.py:21 | the definition of the whole reversal expression; its properties are `ReverseWordsSplit`, `ReverseWordsKeepsLetters`, `ReverseWordsNormalised`, `ReverseWordsTwice`, `ReverseWordsEmptyIffBlank` and `ReverseWordsHelloWorld` |
| Words.ReverseWordsSplit | python-api/app.py:21 | the output splits into the input's words, each reversed, in the same order, so the word count is kept |
| Words.ReverseWordsKeepsLetters | python-api/app.py:21 | each output word has its input word's length and multiset of characters |
| Words.ReverseWordsNormalised | python-api/app.py:21 | the output has no leading or trailing whitespace, no empty words, single spaces between words |
| Words.ReverseWordsTwice | python-api/app.py:21 | reversing twice gives the input's words joined by single spaces, and the input itself when it is normalised |
| Words.ReverseWordsEmptyIffBlank | python-api/app.py:21 | the output is empty if and only if the input is empty or all whitespace |
| Words.ReverseWordsHelloWorld | python-api/app.py:21 | "Hello world" becomes "olleH dlrow" |
| ReverseService.ReverseText | python-api/app.py:19-28 | status 200 if and only if `text` is present; on success exactly the keys `reversed_text`, `hostname`, `ip_address`, the reversed text being the input's words reversed in order and normalised; otherwise status 400 with the single key `error` = "No text provided" |
| ReverseService.ReverseTextRoundTrip | python-api/app.py:20-23 | feeding `reversed_text` back to the handler returns the original words single-spaced |
| ReverseService.ReverseTextIgnoresOtherKeys | python-api/app.py:20-21 | only the `text` key of the body affects the answer |
| LoadClient.SelectCall | test_api.py:16-19 | POST with the payload as JSON if and only if a payload is given and non-empty, GET otherwise, always to the given URL |
| LoadClient.Classify | test_api.py:22-27 | transport failure gives the single key `error` holding the message; an undecodable body gives exactly `error` = "Invalid JSON response" and `content` = raw text; a decoded body is returned unchanged |
| LoadClient.MakeRequest | test_api.py:14-27 | every attempt yields a record: the decoded reply to the selected call, or one with an `error` key and no key but `error` and `content` |
| LoadClient.KeyUnion | test_api.py:31-33 | the definition of the set the loop computes; its properties are `KeyUnionMembers`, `KeyUnionCovers`, `KeyUnionGrows` and `KeyUnionOrderFree`, and `CollectKeys` is proved against it |
| LoadClient.KeyUnionMembers | test_api.py:31-33 | a key is in the union if and only if some record has it |
| LoadClient.KeyUnionCovers | test_api.py:31-33 | every record's keys lie within the union |
| LoadClient.KeyUnionGrows | test_api.py:32-33 | the union of the first j records is contained in that of the first k, for j <= k |
| LoadClient.KeyUnionOrderFree | test_api.py:31-33 | two orderings of the same records have the same key union |
| LoadClient.CollectKeys | test_api.py:31-33 | the loop ends with `all_keys` equal to the union of all records' keys (invariant: the union of the first n), covering every record |
| LoadClient.FillRow | test_api.py:36-38 | a row has exactly the header's columns, the record's value where it has one and blank elsewhere |
| LoadClient.WriteRows | test_api.py:36-38 | writing succeeds if and only if every record's keys lie within the header, and then gives one filled row per record |
| LoadClient.SaveToCsv | test_api.py:29-38 | header = union of all keys; as many rows as records; each row covers the header, keeps its record's values and leaves the rest blank; an empty input gives an empty header and no rows |
| LoadClient.PickMultiset | test_api.py:46-48 | two orders holding the same submissions pick the same multiset of results |
| LoadClient.IsCompletionOrder | test_api.py:46-47 | the definition: `as_completed` hands back every submitted future exactly once; its consequences are `CompletionOrderInRange` and `PickMultiset` |
| LoadClient.CompletionOrderInRange | test_api.py:46-47 | a completion order names only submitted indices and has one entry per submission |
| LoadClient.Submitted | test_api.py:46 | one result per submitted payload |
| LoadClient.CollectResponses | test_api.py:41-48 | `responses` has one entry per payload; entry i is the result of the i-th completed submission; the list is a permutation of the results in submission order |
| LoadClient.RunLoadTest | test_api.py:40-51 | the table has one row per payload; row i is the result of the i-th completed submission filled over the header; the header is the union of the keys of all results, whatever the completion order |
| EndToEnd.GeneratePayload | test_api.py:11-12 | a payload holds the single key `text` = "Payload " followed by one of the four phrases |
| EndToEnd.GeneratedPayloadIsPosted | test_api.py:16-17 | a generated payload is always sent as a POST with that payload |
| EndToEnd.GeneratedPayloadIsAccepted | python-api/app.py:20-26 | the service answers a generated payload with 200, its text's words reversed in order |
| EndToEnd.ServedRequestRecord | test_api.py:22-23 | a served and decoded reply becomes a record with exactly `reversed_text`, `hostname`, `ip_address` |
| EndToEnd.RefusalLooksLikeTransportError | test_api.py:22-27 | the record for the service's 400 reply equals that of a transport failure with the same words, since the status is never looked at |
| EndToEnd.AllTransportErrors | test_api.py:26-33 | if every submission fails in transport, each result has only `error` and the header is exactly {`error`} |
| EndToEnd.AllServed | test_api.py:22-33 | if every submission is served by the reverse endpoint, the header is exactly {`reversed_text`, `hostname`, `ip_address`} |

## Left out

- Flask routing, `request.json` and `jsonify` are not modelled. The body is taken as an already-parsed JSON object with text values. Other bodies are not modelled, and behave as follows:
  - Malformed JSON, or a body not sent as JSON, is refused when the handler reads `request.json` at python-api/app.py:19. This happens after the 2-second sleep and the name lookup, and current Flask answers with a 4xx status. Older releases behaved differently: before Werkzeug 2.1, `request.json` gave `None` for such a body, so the `in` test raised and Flask answered 500.
  - A JSON array or string that does not contain `"text"` makes `'text' in data` false, so the handler gives the same 400 `No text provided` record as a missing key.
  - `null`, a number, an array or string that contains `"text"`, or an object whose `text` is not a string makes the handler raise, and Flask answers 500.
- Host name and address resolution are not modelled. `socket.gethostname` and `gethostbyname` become the inputs `hostname` and `ipAddress` of `ReverseText`.
- The `/` greeting endpoint and the `/cpu-intensive` endpoint are not modelled. The first is string formatting over name resolution. The second is an 8-second busy-wait on a joined thread, with no logical content.
- `time.sleep(2)` in the handler and `time.sleep(5)` in the client are not modelled, because they only concern wall-clock time.
- The `ThreadPoolExecutor` and concurrency are not modelled. Completion order is an input, required to hold every submission exactly once.
- The network is a per-submission function from the call to its outcome. Only the HTTP call's method, URL and JSON body are modelled, not headers or status codes.
- Decoded JSON bodies are modelled only as flat objects of text values. A body that decodes to a list or a number would make `save_to_csv` raise on `item.keys()`. That case is not modelled.
- Exceptions other than `requests.RequestException` and the JSON decode error would propagate out of `make_request`. They are not modelled.
- File output, CSV quoting and the column order of `list(all_keys)` are not modelled. The header is a set, because Python's set order is unspecified.
- `WriteRows`: the failure case returns nothing. It does not model the rows `DictWriter` would already have written before raising `ValueError`. The model proves this case never arises from `save_to_csv`.
- Command-line parsing, the optional warm-up GET to `/cpu-intensive`, the hardcoded URLs and the output file name are not modelled. These are I/O.
- `random.randint` is not modelled. The draw is the parameter `choice` of `GeneratePayload`.
- Whitespace is the fixed list of characters in `Words.IsSpace`, those Python's `str.isspace()` accepts. Python's Unicode database itself is not modelled.
