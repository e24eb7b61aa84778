/** The routing headers of MCP requests: their encoding, the server's checks, and the bridge that fills them in. */
module McpHeaders {
  import opened Options
  import opened Sequences
  import opened Base64

  const PREFIX: Text := "=?base64?"
  const SUFFIX: Text := "?="

  const MODERN: seq<Text> := ["2026-07-28"]
  const SUPPORTED: seq<Text> := ["2026-07-28", "2025-11-25", "2025-06-18", "2025-03-26", "2024-11-05"]
  const HEADERLESS: Text := "2025-03-26"

  const INVALID_REQUEST := -32600
  const INVALID_PARAMS := -32602
  const HEADER_MISMATCH := -32020
  const UNSUPPORTED_VERSION := -32022

  // ----- Trimming -----

  /** What the server trims; spaces of more than one octet are no part of this. */
  predicate WhiteSpace(c: Octet) { c == ' ' || '\t' <= c <= '\r' }

  /** What an HTTP/1 connection does not preserve around a value. */
  predicate LinearBlank(c: Octet) { c == ' ' || c == '\t' }

  // ----- Header values -----

  predicate StartsWith(v: Text, p: Text) { |p| <= |v| && v[..|p|] == p }
  predicate EndsWith(v: Text, p: Text) { |p| <= |v| && v[|v| - |p|..] == p }

  predicate Printable(c: Octet) { ' ' <= c <= '~' }
  predicate AllPrintable(v: Text) { forall i :: 0 <= i < |v| ==> Printable(v[i]) }

  /** Values that can be sent as they are and cannot be mistaken for an encoded one. */
  predicate Safe(v: Text) {
    v != [] && !OuterBlank<Octet>(v, WhiteSpace) && !(StartsWith(v, PREFIX) && EndsWith(v, SUFFIX)) && AllPrintable(v)
  }

  function Encoded(v: Text): Text {
    if Safe(v) then v else PREFIX + Encode(v) + SUFFIX
  }

  method EncodeHeaderValue(v: Text) returns (e: Text)
    ensures e == Encoded(v)
    ensures var plain := |v| > 0 && !WhiteSpace(v[0]) && !WhiteSpace(v[|v| - 1])
          && (forall i :: 0 <= i < |v| ==> ' ' <= v[i] <= '~')
          && !(|v| >= 9 && v[..9] == "=?base64?" && v[|v| - 2..] == "?=");
      e == if plain then v else "=?base64?" + Encode(v) + "?="
  {
    TrimKeepsExactly<Octet>(v, WhiteSpace);
    var safe := v != [] && Trim<Octet>(v, WhiteSpace) == v && !(StartsWith(v, PREFIX) && EndsWith(v, SUFFIX));
    ghost var start := safe;
    var i := 0;
    while safe && i < |v|
      invariant 0 <= i <= |v|
      invariant safe ==> start && forall j :: 0 <= j < i ==> Printable(v[j])
      invariant !safe ==> !start || !AllPrintable(v)
    {
      if v[i] < ' ' || v[i] > '~' {
        safe := false;
      }
      i := i + 1;
    }
    e := if safe then v else PREFIX + Encode(v) + SUFFIX;
  }

  /** None if the value claims to be encoded but is not. */
  function DecodeHeaderValue(v: Text): Option<Text> {
    if StartsWith(v, PREFIX) && EndsWith(v, SUFFIX) && |v| >= |PREFIX| + |SUFFIX|
    then Decode(v[|PREFIX|..|v| - |SUFFIX|])
    else Some(v)
  }

  /** Every value survives, and what is sent is non-empty printable ASCII without outer blanks. */
  lemma HeaderValueRoundTrip(v: Text)
    ensures DecodeHeaderValue(Encoded(v)) == Some(v)
    ensures Encoded(v) != [] && AllPrintable(Encoded(v)) && !OuterBlank<Octet>(Encoded(v), WhiteSpace)
  {
    hide Decode, Encode;
    if !Safe(v) {
      var e := Encoded(v);
      assert e[..|PREFIX|] == PREFIX && e[|e| - |SUFFIX|..] == SUFFIX;
      assert e[|PREFIX|..|e| - |SUFFIX|] == Encode(v);
      RoundTrip(v);
      EncodedShape(v);
      forall i | 0 <= i < |e| ensures Printable(e[i]) {
        if |PREFIX| <= i < |e| - |SUFFIX| {
          assert e[i] == Encode(v)[i - |PREFIX|];
        }
      }
    }
  }

  // ----- The server -----

  /** What the parameters say; a field that is absent, or a version that is no string, reads as "". */
  datatype Params = Params(metaVersion: Text, name: Text, uri: Text)

  /** A message after JSON decoding; `params` is None if they do not decode. */
  datatype Request = Request(jsonrpc: Text, hasId: bool, verb: Text, params: Option<Params>)

  /** A header that was not sent reads as "". */
  datatype Headers = Headers(version: Text, verb: Text, name: Text)

  datatype Reply = Accepted | Failed(code: int) | Initialized | Dispatched(version: Text, modern: bool)

  predicate Named(verb: Text) { verb == "tools/call" || verb == "prompts/get" || verb == "resources/read" }

  function NameOf(verb: Text, p: Params): Text { if verb == "resources/read" then p.uri else p.name }

  /** Whether the headers pass; `version` is the trimmed version header. */
  predicate HeadersPass(h: Headers, version: Text, verb: Text, p: Params) {
    if version == "" || (p.metaVersion != "" && version != p.metaVersion) then false
    else if h.verb == "" || h.verb != verb then false
    else if !Named(verb) then true
    else if h.name == "" then false
    else DecodeHeaderValue(h.name) == Some(NameOf(verb, p))
  }

  /** handle, up to the point where the method is looked up. Batches come without headers. */
  function Handle(q: Request, h: Option<Headers>): Reply {
    if q.jsonrpc != "2.0" || q.verb == "" then if q.hasId then Failed(INVALID_REQUEST) else Accepted
    else if !q.hasId then Accepted
    else if q.verb == "initialize" then Initialized
    else if q.params.None? then Failed(INVALID_PARAMS)
    else
      var meta := q.params.value.metaVersion;
      var header := if h.Some? then Trim<Octet>(h.value.version, WhiteSpace) else "";
      var version := if meta != "" then meta else if header != "" then header else HEADERLESS;
      if version !in SUPPORTED then Failed(UNSUPPORTED_VERSION)
      else
        var modern := version in MODERN || header in MODERN;
        if modern && h.Some? && !HeadersPass(h.value, header, q.verb, q.params.value) then Failed(HEADER_MISMATCH)
        else if modern && meta == "" then Failed(HEADER_MISMATCH)
        else Dispatched(version, modern)
  }

  /** The version that a message is handled under: its own, else that of the header, else the oldest without headers. */
  function VersionOf(meta: Text, header: Text): Text {
    if meta != "" then meta else if header != "" then header else "2025-03-26"
  }

  predicate Known(version: Text) {
    version in ["2026-07-28", "2025-11-25", "2025-06-18", "2025-03-26", "2024-11-05"]
  }

  /** What is answered to which message, case by case. */
  lemma HandledExactly(q: Request, h: Option<Headers>)
    ensures !q.hasId ==> Handle(q, h) == Accepted
    ensures q.hasId && (q.jsonrpc != "2.0" || q.verb == "") ==> Handle(q, h) == Failed(-32600)
    ensures q.hasId && q.jsonrpc == "2.0" && q.verb != "" ==>
      var header := if h.Some? then Trim<Octet>(h.value.version, WhiteSpace) else "";
      if q.verb == "initialize" then Handle(q, h) == Initialized
      else if q.params.None? then Handle(q, h) == Failed(-32602)
      else
        var p := q.params.value;
        var version := VersionOf(p.metaVersion, header);
        var modern := version == "2026-07-28" || header == "2026-07-28";
        if !Known(version) then Handle(q, h) == Failed(-32022)
        else if modern && (p.metaVersion == "" || (h.Some? && !Agree(h.value, header, q.verb, p))) then
          Handle(q, h) == Failed(-32020)
        else Handle(q, h) == Dispatched(version, modern)
  {
  }

  /** The headers of a modern call: version, method, and the name in calls that have one. */
  predicate Agree(h: Headers, header: Text, verb: Text, p: Params) {
    && header == p.metaVersion && header != "" && h.verb == verb
    && (verb in ["tools/call", "prompts/get"] ==> h.name != "" && DecodeHeaderValue(h.name) == Some(p.name))
    && (verb == "resources/read" ==> h.name != "" && DecodeHeaderValue(h.name) == Some(p.uri))
  }

  /** A modern call that is served over HTTP says the same in its headers and in its body. */
  lemma ServedCallsAgree(q: Request, h: Headers)
    requires Handle(q, Some(h)).Dispatched? && Handle(q, Some(h)).modern
    ensures var p := q.params.value;
      && Handle(q, Some(h)).version == p.metaVersion == Trim<Octet>(h.version, WhiteSpace) && p.metaVersion in MODERN
      && h.verb == q.verb
      && (Named(q.verb) ==> DecodeHeaderValue(h.name) == Some(NameOf(q.verb, p)))
  {
  }

  /** Without headers, as in a batch, there is never a mismatch. */
  lemma BatchesNeverMismatch(q: Request)
    ensures Handle(q, None) != Failed(HEADER_MISMATCH)
  {
    assert "" !in MODERN && HEADERLESS !in MODERN;
  }

  // ----- The bridge -----

  /** The headers added to a forwarded message; none if it does not decode or names no version. */
  function RoutingHeaders(q: Request): Option<Headers> {
    if q.params.None? || q.verb == "" || q.params.value.metaVersion == "" then None
    else Some(Headers(
      q.params.value.metaVersion, q.verb,
      if Named(q.verb) then Encoded(NameOf(q.verb, q.params.value)) else ""))
  }

  /** Exactly what the bridge sends along, and with which messages. */
  lemma SentExactly(q: Request)
    ensures RoutingHeaders(q).Some? <==> q.params.Some? && q.verb != "" && q.params.value.metaVersion != ""
    ensures RoutingHeaders(q).Some? ==>
      var h, p := RoutingHeaders(q).value, q.params.value;
      && h.version == p.metaVersion && h.verb == q.verb
      && (q.verb in ["tools/call", "prompts/get"] ==> h.name == Encoded(p.name))
      && (q.verb == "resources/read" ==> h.name == Encoded(p.uri))
      && (q.verb !in ["tools/call", "prompts/get", "resources/read"] ==> h.name == "")
  {
  }

  /** HTTP refuses to send control characters. */
  predicate Sendable(v: Text) { forall i :: 0 <= i < |v| ==> v[i] == '\t' || (v[i] >= ' ' && v[i] != 127 as char) }

  /**
   * What arrives of a forwarded message's headers, or None if it cannot be sent. An HTTP/1 connection
   * trims every value, an HTTP/2 connection does not.
   */
  function Arriving(q: Request, trims: bool): Option<Headers> {
    match RoutingHeaders(q)
    case None => Some(Headers("", "", ""))
    case Some(h) =>
      if !(Sendable(h.version) && Sendable(h.verb) && Sendable(h.name)) then None
      else if trims then Some(Headers(
        Trim<Octet>(h.version, LinearBlank), Trim<Octet>(h.verb, LinearBlank), Trim<Octet>(h.name, LinearBlank)))
      else Some(h)
  }

  lemma SupportedVersionsHaveNoBlanks(v: Text)
    requires v in SUPPORTED
    ensures v != "" && !OuterBlank<Octet>(v, WhiteSpace) && !OuterBlank<Octet>(v, LinearBlank)
  {
  }

  lemma NameArrives(q: Request)
    requires RoutingHeaders(q).Some?
    ensures var n := RoutingHeaders(q).value.name; Trim<Octet>(n, LinearBlank) == n
    ensures Named(q.verb) ==>
      RoutingHeaders(q).value.name != "" &&
      DecodeHeaderValue(RoutingHeaders(q).value.name) == Some(NameOf(q.verb, q.params.value))
  {
    var n := RoutingHeaders(q).value.name;
    TrimKeepsExactly<Octet>(n, LinearBlank);
    if Named(q.verb) {
      HeaderValueRoundTrip(NameOf(q.verb, q.params.value));
    }
  }

  /**
   * Exactly when the server answers a forwarded message with a header mismatch: the method is sent as
   * it is, so it must have outer blanks that the connection takes away. No other field can be at fault.
   */
  lemma ForwardedMismatchExactly(q: Request, trims: bool)
    requires Arriving(q, trims).Some?
    ensures Handle(q, Arriving(q, trims)) == Failed(HEADER_MISMATCH) <==>
      (&& trims && OuterBlank<Octet>(q.verb, LinearBlank)
       && q.jsonrpc == "2.0" && q.hasId && q.verb != "initialize"
       && q.params.Some? && q.params.value.metaVersion in MODERN)
  {
    hide Trim, Encoded, DecodeHeaderValue;
    TrimKeepsExactly<Octet>("", WhiteSpace);
    if q.params.Some? && q.params.value.metaVersion in SUPPORTED {
      var v := q.params.value.metaVersion;
      SupportedVersionsHaveNoBlanks(v);
      TrimKeepsExactly<Octet>(v, WhiteSpace);
      TrimKeepsExactly<Octet>(v, LinearBlank);
      TrimKeepsExactly<Octet>(q.verb, LinearBlank);
      if RoutingHeaders(q).Some? {
        NameArrives(q);
      }
    }
  }

  /** A message that JSON and the bridge let through, and that HTTP/1 makes the server reject. */
  lemma BlankMethodMismatches()
    ensures var q := Request("2.0", true, " tools/list", Some(Params("2026-07-28", "", "")));
      && RoutingHeaders(q) == Some(Headers("2026-07-28", " tools/list", ""))
      && Handle(q, RoutingHeaders(q)).Dispatched?
      && Handle(q, Arriving(q, true)) == Failed(HEADER_MISMATCH)
  {
    var q := Request("2.0", true, " tools/list", Some(Params("2026-07-28", "", "")));
    assert q.params.value.metaVersion in MODERN;
    ForwardedMismatchExactly(q, true);
    ForwardedMismatchExactly(q, false);
  }
}
