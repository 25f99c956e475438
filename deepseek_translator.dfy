/**
 * The DeepSeek machine translator: translate_array splits the keyed input
 * into chunks of 40, sends each chunk, and writes the i-th translation of a
 * response back onto the chunk's i-th key.  Three response shapes are
 * accepted.  The HTTP call, the logger and the quota are oracles.
 */
module DeepseekTranslator {
  import opened Wrappers

  const ChunkSize: nat := 40
  const DefaultEndpoint: string := "https://api.deepseek.example/v1/translate"

  /** trp_machine_translation_settings and the engine's endpoint default. */
  datatype Settings = Settings(defaultLanguage: string, apiKey: Option<string>,
                               endpoint: Option<string>, defaultEndpoint: string)

  /** What wp_remote_post is called with. */
  datatype Request = Request(endpoint: string, authorization: string, source: string,
                             target: string, q: seq<string>, timeout: nat)

  /** One entry of a `data` array: its 'translatedText' and 'text' members (None: not set). */
  datatype DataEntry = DataEntry(translatedText: Option<string>, text: Option<string>)

  /** The decoded body's three recognised members; None when absent or not an array.
      An entry is None when it is not set (or, for `data`, not an array). */
  datatype Body = Body(data: Option<seq<Option<DataEntry>>>,
                       translations: Option<seq<Option<string>>>,
                       result: Option<seq<Option<string>>>)

  /** A WP_Error, or an HTTP reply: the status (0 when missing) and the body
      decoded as JSON (None when it does not decode to an array). */
  datatype Response = WpError(code: string) | Http(status: int, body: Option<Body>)

  type Entries<K> = seq<(K, string)>

  predicate EmptyValue(v: Option<string>) {
    v.None? || v.value == "" || v.value == "0"
  }

  predicate UniqueKeys<K(==)>(s: Entries<K>) {
    forall i, j :: 0 <= i < j < |s| ==> s[i].0 != s[j].0
  }

  function KeysOf<K(==)>(s: Entries<K>): set<K> {
    set i | 0 <= i < |s| :: s[i].0
  }

  /** array_values */
  function Values<K(==)>(s: Entries<K>): (vs: seq<string>)
    ensures |vs| == |s| && forall i :: 0 <= i < |s| ==> vs[i] == s[i].1
  {
    seq(|s|, i requires 0 <= i < |s| => s[i].1)
  }

  /** The configured endpoint, or the engine default when the setting is empty. */
  function Endpoint(s: Settings): string {
    if !EmptyValue(s.endpoint) then s.endpoint.value else s.defaultEndpoint
  }

  /** send_request: refuses before any request when the key (or the endpoint) is empty. */
  function SendRequest<K(==)>(s: Settings, post: Request -> Response, source: string, target: string,
                          strings: Entries<K>): (r: Response)
    ensures EmptyValue(s.apiKey) ==> r == WpError("trp_no_api_key")
    ensures !EmptyValue(s.apiKey) && EmptyValue(Some(Endpoint(s))) ==> r == WpError("trp_no_endpoint")
    ensures !EmptyValue(s.apiKey) && !EmptyValue(Some(Endpoint(s))) ==>
              r == post(Request(Endpoint(s), "Bearer " + s.apiKey.value, source, target, Values(strings), 20))
  {
    var apiKey := s.apiKey;
    var endpoint := Endpoint(s);
    if EmptyValue(apiKey) then WpError("trp_no_api_key")
    else if EmptyValue(Some(endpoint)) then WpError("trp_no_endpoint")
    else post(Request(endpoint, "Bearer " + apiKey.value, source, target, Values(strings), 20))
  }

  /** With the engine's own default endpoint, only a missing key keeps a request from being posted. */
  lemma DefaultEndpointNeverEmpty<K>(s: Settings, post: Request -> Response, source: string, target: string,
                                     strings: Entries<K>)
    requires s.defaultEndpoint == DefaultEndpoint
    ensures !EmptyValue(s.apiKey) ==>
              SendRequest(s, post, source, target, strings)
              == post(Request(Endpoint(s), "Bearer " + s.apiKey.value, source, target, Values(strings), 20))
  {
    assert |DefaultEndpoint| > 1;
  }

  /** machine_translation_codes lookup, or the code itself. */
  function IsoCode(codes: map<string, string>, language: string): string {
    if language in codes then codes[language] else language
  }

  /** array_chunk(s, n, true): consecutive pieces of n entries, the last possibly shorter. */
  function Chunks<T>(s: seq<T>, n: nat): (cs: seq<seq<T>>)
    requires n > 0
    ensures forall i :: 0 <= i < |cs| ==> 0 < |cs[i]| <= n
    ensures forall i :: 0 <= i < |cs| - 1 ==> |cs[i]| == n
    decreases |s|
  {
    if s == [] then []
    else if |s| <= n then [s]
    else [s[..n]] + Chunks(s[n..], n)
  }

  function Flatten<T>(cs: seq<seq<T>>): seq<T> {
    if cs == [] then [] else cs[0] + Flatten(cs[1..])
  }

  /** Chunking keeps every entry, in order: the chunks concatenate back to the input. */
  lemma {:induction false} ChunksFlatten<T>(s: seq<T>, n: nat)
    requires n > 0
    ensures Flatten(Chunks(s, n)) == s
    decreases |s|
  {
    if s == [] {
    } else if |s| <= n {
      assert Flatten([s]) == s + Flatten([]);
    } else {
      var cs := Chunks(s, n);
      assert cs[1..] == Chunks(s[n..], n);
      ChunksFlatten(s[n..], n);
      assert s[..n] + s[n..] == s;
    }
  }

  /** Every entry of a chunk is an entry of the input. */
  lemma {:induction false} ChunkEntriesFromInput<T>(s: seq<T>, n: nat, j: nat, x: T)
    requires n > 0 && j < |Chunks(s, n)| && x in Chunks(s, n)[j]
    ensures x in s
    decreases |s|
  {
    if |s| > n && j > 0 {
      var cs := Chunks(s, n);
      assert cs[j] == Chunks(s[n..], n)[j - 1];
      ChunkEntriesFromInput(s[n..], n, j - 1, x);
    }
  }

  /** In the `data` shape, 'translatedText' wins over 'text'. */
  function DataValue(e: Option<DataEntry>): (v: Option<string>)
    ensures e.Some? && e.value.translatedText.Some? ==> v == e.value.translatedText
    ensures e.Some? && e.value.translatedText.None? ==> v == e.value.text
    ensures e.None? ==> v.None?
  {
    if e.Some? && e.value.translatedText.Some? then e.value.translatedText
    else if e.Some? && e.value.text.Some? then e.value.text
    else None
  }

  function DataValues(data: seq<Option<DataEntry>>): (vs: seq<Option<string>>)
    ensures |vs| == |data| && forall i :: 0 <= i < |data| ==> vs[i] == DataValue(data[i])
  {
    seq(|data|, i requires 0 <= i < |data| => DataValue(data[i]))
  }

  /** The positional write-back: the i-th value, when set, goes to the chunk's i-th key. */
  function Positional<K(==)>(chunk: Entries<K>, vals: seq<Option<string>>): (m: map<K, string>)
    ensures m.Keys <= KeysOf(chunk)
    decreases |chunk|
  {
    if chunk == [] then map[]
    else
      var i := |chunk| - 1;
      var m := Positional(chunk[..i], vals);
      assert KeysOf(chunk[..i]) <= KeysOf(chunk) by {
        forall k | k in KeysOf(chunk[..i]) ensures k in KeysOf(chunk) {
          var j :| 0 <= j < i && chunk[..i][j].0 == k;
          assert chunk[j].0 == k;
        }
      }
      if i < |vals| && vals[i].Some? then m[chunk[i].0 := vals[i].value] else m
  }

  /** With distinct keys, key i is present exactly when value i is set, and carries it. */
  lemma {:induction false} PositionalAt<K>(chunk: Entries<K>, vals: seq<Option<string>>, i: nat)
    requires UniqueKeys(chunk) && i < |chunk|
    ensures chunk[i].0 in Positional(chunk, vals) <==> i < |vals| && vals[i].Some?
    ensures chunk[i].0 in Positional(chunk, vals) ==> Positional(chunk, vals)[chunk[i].0] == vals[i].value
    decreases |chunk|
  {
    var last := |chunk| - 1;
    if i < last {
      var prefix := chunk[..last];
      assert prefix[i] == chunk[i];
      PositionalAt(prefix, vals, i);
      assert chunk[last].0 != chunk[i].0;
    } else {
      var m := Positional(chunk[..last], vals);
      forall j | 0 <= j < last ensures chunk[..last][j].0 != chunk[i].0 {
        assert chunk[..last][j] == chunk[j];
      }
      assert chunk[i].0 !in KeysOf(chunk[..last]);
      assert chunk[i].0 !in m;
    }
  }

  /** Decoding one reply body: shapes tried in the order data, translations, result. */
  function Decode<K(==)>(chunk: Entries<K>, body: Body): (r: Option<map<K, string>>)
    ensures r.None? <==> body.data.None? && body.translations.None? && body.result.None?
    ensures body.data.Some? ==> r == Some(Positional(chunk, DataValues(body.data.value)))
    ensures body.data.None? && body.translations.Some? ==> r == Some(Positional(chunk, body.translations.value))
    ensures body.data.None? && body.translations.None? && body.result.Some? ==>
              r == Some(Positional(chunk, body.result.value))
  {
    if body.data.Some? then Some(Positional(chunk, DataValues(body.data.value)))
    else if body.translations.Some? then Some(Positional(chunk, body.translations.value))
    else if body.result.Some? then Some(Positional(chunk, body.result.value))
    else None
  }

  /** The outcome of one chunk: None aborts the whole call. */
  function Step<K(==)>(chunk: Entries<K>, resp: Response): (r: Option<map<K, string>>)
    ensures resp.WpError? ==> r.None?
    ensures resp.Http? && (resp.status < 200 || resp.status >= 300) ==> r.None?
    ensures resp.Http? && resp.body.None? ==> r.None?
    ensures r.Some? ==> r.value.Keys <= KeysOf(chunk)
  {
    if resp.WpError? then None
    else if resp.status < 200 || resp.status >= 300 then None
    else if resp.body.None? then None
    else Decode(chunk, resp.body.value)
  }

  /** The request/decode/quota loop from chunk j on, with `acc` gathered so far.
      quotaExceeded(j) is the logger's verdict after chunk j was counted. */
  function Run<K(==)>(s: Settings, post: Request -> Response, src: string, tgt: string,
                  chunks: seq<Entries<K>>, j: nat, acc: map<K, string>, quotaExceeded: nat -> bool): map<K, string>
    requires j <= |chunks|
    decreases |chunks| - j
  {
    if j == |chunks| then acc
    else
      var step := Step(chunks[j], SendRequest(s, post, src, tgt, chunks[j]));
      if step.None? then map[]
      else if quotaExceeded(j) then acc + step.value
      else Run(s, post, src, tgt, chunks, j + 1, acc + step.value, quotaExceeded)
  }

  /** translate_array as a value. */
  function TranslateArraySpec<K(==)>(s: Settings, codes: map<string, string>, verify: (string, string) -> bool,
                                 post: Request -> Response, quotaExceeded: nat -> bool,
                                 newStrings: Entries<K>, target: string, source: Option<string>): map<K, string>
  {
    var src := source.GetOr(s.defaultLanguage);
    if |newStrings| == 0 || !verify(target, src) then map[]
    else Run(s, post, IsoCode(codes, src), IsoCode(codes, target), Chunks(newStrings, ChunkSize), 0, map[], quotaExceeded)
  }

  /** The positional write-back loop of one shape, onto the gathered result. */
  method MergePositional<K(==)>(acc: map<K, string>, chunk: Entries<K>, vals: seq<Option<string>>)
    returns (out: map<K, string>)
    ensures out == acc + Positional(chunk, vals)
  {
    out := acc;
    var i := 0;
    while i < |chunk|
      invariant 0 <= i <= |chunk|
      invariant out == acc + Positional(chunk[..i], vals)
    {
      assert chunk[..i + 1][..i] == chunk[..i];
      if i < |vals| && vals[i].Some? {
        out := out[chunk[i].0 := vals[i].value];
      }
      i := i + 1;
    }
    assert chunk[..|chunk|] == chunk;
  }

  /** translate_array */
  method TranslateArray<K(==)>(s: Settings, codes: map<string, string>, verify: (string, string) -> bool,
                           post: Request -> Response, quotaExceeded: nat -> bool,
                           newStrings: Entries<K>, target: string, source: Option<string>)
    returns (translated: map<K, string>)
    ensures translated == TranslateArraySpec(s, codes, verify, post, quotaExceeded, newStrings, target, source)
  {
    var src := if source.None? then s.defaultLanguage else source.value;
    if |newStrings| == 0 || !verify(target, src) {
      return map[];
    }
    var srcIso := IsoCode(codes, src);
    var tgtIso := IsoCode(codes, target);
    translated := map[];
    var chunks := Chunks(newStrings, ChunkSize);
    var j := 0;
    while j < |chunks|
      invariant 0 <= j <= |chunks|
      invariant Run(s, post, srcIso, tgtIso, chunks, j, translated, quotaExceeded)
                == TranslateArraySpec(s, codes, verify, post, quotaExceeded, newStrings, target, source)
    {
      var chunk := chunks[j];
      var response := SendRequest(s, post, srcIso, tgtIso, chunk);
      if response.WpError? {
        return map[];
      }
      if response.status < 200 || response.status >= 300 {
        return map[];
      }
      if response.body.None? {
        return map[];
      }
      var body := response.body.value;
      if body.data.Some? {
        translated := MergePositional(translated, chunk, DataValues(body.data.value));
      } else if body.translations.Some? {
        translated := MergePositional(translated, chunk, body.translations.value);
      } else if body.result.Some? {
        translated := MergePositional(translated, chunk, body.result.value);
      } else {
        return map[];
      }
      if quotaExceeded(j) {
        return;
      }
      j := j + 1;
    }
  }

  /** Output keys are always input keys. */
  lemma {:induction false} TranslateArrayKeys<K>(s: Settings, codes: map<string, string>, verify: (string, string) -> bool,
                                                 post: Request -> Response, quotaExceeded: nat -> bool,
                                                 newStrings: Entries<K>, target: string, source: Option<string>)
    ensures TranslateArraySpec(s, codes, verify, post, quotaExceeded, newStrings, target, source).Keys
            <= KeysOf(newStrings)
  {
    var src := source.GetOr(s.defaultLanguage);
    if |newStrings| > 0 && verify(target, src) {
      RunKeys(s, post, IsoCode(codes, src), IsoCode(codes, target), newStrings, 0, map[], quotaExceeded);
    }
  }

  lemma {:induction false} RunKeys<K>(s: Settings, post: Request -> Response, src: string, tgt: string,
                                      input: Entries<K>, j: nat, acc: map<K, string>, quotaExceeded: nat -> bool)
    requires j <= |Chunks(input, ChunkSize)| && acc.Keys <= KeysOf(input)
    ensures Run(s, post, src, tgt, Chunks(input, ChunkSize), j, acc, quotaExceeded).Keys <= KeysOf(input)
    decreases |Chunks(input, ChunkSize)| - j
  {
    var chunks := Chunks(input, ChunkSize);
    if j < |chunks| {
      var step := Step(chunks[j], SendRequest(s, post, src, tgt, chunks[j]));
      if step.Some? {
        forall k | k in step.value.Keys ensures k in KeysOf(input) {
          var i :| 0 <= i < |chunks[j]| && chunks[j][i].0 == k;
          ChunkEntriesFromInput(input, ChunkSize, j, chunks[j][i]);
        }
        if !quotaExceeded(j) {
          RunKeys(s, post, src, tgt, input, j + 1, acc + step.value, quotaExceeded);
        }
      }
    }
  }

  /** A chunk that fails before the quota stops the loop empties the whole result,
      discarding what earlier chunks produced. */
  lemma {:induction false} FailureDiscardsAll<K>(s: Settings, post: Request -> Response, src: string, tgt: string,
                                                 chunks: seq<Entries<K>>, j: nat, f: nat, acc: map<K, string>,
                                                 quotaExceeded: nat -> bool)
    requires j <= f < |chunks|
    requires forall i :: j <= i < f ==> Step(chunks[i], SendRequest(s, post, src, tgt, chunks[i])).Some? && !quotaExceeded(i)
    requires Step(chunks[f], SendRequest(s, post, src, tgt, chunks[f])).None?
    ensures Run(s, post, src, tgt, chunks, j, acc, quotaExceeded) == map[]
    decreases f - j
  {
    if j < f {
      var step := Step(chunks[j], SendRequest(s, post, src, tgt, chunks[j]));
      FailureDiscardsAll(s, post, src, tgt, chunks, j + 1, f, acc + step.value, quotaExceeded);
    }
  }

  /** Without a key, every non-empty call that passes parameter verification returns nothing. */
  lemma NoKeyNoTranslations<K>(s: Settings, codes: map<string, string>, verify: (string, string) -> bool,
                               post: Request -> Response, quotaExceeded: nat -> bool,
                               newStrings: Entries<K>, target: string, source: Option<string>)
    requires EmptyValue(s.apiKey)
    ensures TranslateArraySpec(s, codes, verify, post, quotaExceeded, newStrings, target, source) == map[]
  {
    var src := source.GetOr(s.defaultLanguage);
    if |newStrings| > 0 && verify(target, src) {
      var chunks := Chunks(newStrings, ChunkSize);
      FailureDiscardsAll(s, post, IsoCode(codes, src), IsoCode(codes, target), chunks, 0, 0, map[], quotaExceeded);
    }
  }
}
