/**
 * The endpoint resolver: one delivery fans out to every endpoint of every descriptor the registry returns for its
 * receiver, in order, until an endpoint of unsupported type ends it.
 */
module EndpointResolver {
  import opened JsStrings

  datatype Identification = Identification(id: string, idType: string)

  datatype Receiver = Receiver(identification: Option<Identification>, role: Option<string>)

  /** `rest` and `elements` stand for the parts of the message the resolver copies. */
  datatype Frame = Frame(receiver: Option<Receiver>, semanticProtocol: string, rest: string)

  datatype Body = Body(frame: Frame, elements: string)

  datatype Endpoint = Endpoint(
    address: string, endpointType: string, target: string, user: string, password: string, tlsCertificate: string)

  /** A registry answer of the documented types; the "descriptor" and "endpoints" attributes may be missing. */
  datatype Descriptor = Descriptor(identification: Identification, descriptor: Option<Option<seq<Endpoint>>>)

  datatype Route = ById(id: string) | ByRole(semanticProtocol: string, role: string)

  /** What the endpoint registry answers; a single descriptor is wrapped into a list. */
  datatype Answer = Failed | Empty | Descriptors(found: seq<Descriptor>)

  datatype ResolverMsg = ResolverMsg(
    egressPayload: Body, receiverUrl: string, receiverType: string, receiverTarget: string, receiverTlsCert: string,
    receiverUser: string, receiverPassword: string)

  datatype Publication = Publication(routingKey: string, msg: ResolverMsg)

  datatype Error = MalformedMessage | ReceiverNotSpecified | RegistryFailed | UnsupportedType(endpointType: string)

  // ---------------------------------------------------------------- identifiers through JSON

  predicate Escapes(c: char) {
    c == '\"' || c == '\\' || c < ' ' || c == '<' || c == '>' || c == '&' || c == '\U{2028}' || c == '\U{2029}'
  }

  function HexDigit(d: int): char
    requires 0 <= d < 16
  {
    "0123456789abcdef"[d]
  }

  /** Four hexadecimal digits behind a backslash and "u". */
  function HexForm(n: int): string
    requires 0 <= n < 0x1_0000
  {
    "\\u" + [HexDigit(n / 0x1000), HexDigit(n / 0x100 % 0x10), HexDigit(n / 0x10 % 0x10), HexDigit(n % 0x10)]
  }

  /** One character as the JSON encoder writes it. */
  function EscapedChar(c: char): string {
    if c == '\"' then "\\\"" else if c == '\\' then "\\\\"
    else if c == '\n' then "\\n" else if c == '\r' then "\\r" else if c == '\t' then "\\t"
    else if Escapes(c) then HexForm((c as int) % 0x1_0000)
    else [c]
  }

  function Escaped(s: string): string {
    if s == "" then "" else EscapedChar(s[0]) + Escaped(s[1..])
  }

  function JsonText(s: string): string {
    "\"" + Escaped(s) + "\""
  }

  /** `strings.Replace(s, "\"", "", -1)`. */
  function WithoutQuotes(s: string): string {
    if s == "" then "" else (if s[0] == '\"' then "" else [s[0]]) + WithoutQuotes(s[1..])
  }

  function Stripped(s: string): string {
    WithoutQuotes(JsonText(s))
  }

  predicate Plain(s: string) {
    forall p :: 0 <= p < |s| ==> !Escapes(s[p])
  }

  lemma {:induction false} WithoutQuotesConcat(a: string, b: string)
    ensures WithoutQuotes(a + b) == WithoutQuotes(a) + WithoutQuotes(b)
  {
    if a == "" {
      assert a + b == b;
    } else {
      assert (a + b)[1..] == a[1..] + b;
      WithoutQuotesConcat(a[1..], b);
    }
  }

  /** An escaped character never comes back as itself alone: it starts with a backslash. */
  lemma StrippedChar(c: char)
    ensures !Escapes(c) ==> WithoutQuotes(EscapedChar(c)) == [c]
    ensures Escapes(c) ==> |WithoutQuotes(EscapedChar(c))| >= 1 && WithoutQuotes(EscapedChar(c))[0] == '\\'
    ensures c == '\\' ==> |WithoutQuotes(EscapedChar(c))| == 2
  {
    var e := EscapedChar(c);
    if !Escapes(c) {
      assert e[1..] == "";
    } else {
      assert e == [e[0]] + e[1..];
      assert WithoutQuotes(e) == [e[0]] + WithoutQuotes(e[1..]);
      if c == '\\' {
        assert |e| == 2 && e[1] == '\\';
        assert e[1..] == [e[1]] + [];
        assert WithoutQuotes(e[1..]) == [e[1]];
      }
    }
  }

  lemma BackslashEscapes(c: char)
    ensures c == '\\' ==> Escapes(c)
  {
  }

  lemma {:induction false} StrippedText(s: string)
    ensures |WithoutQuotes(Escaped(s))| >= |s|
    ensures WithoutQuotes(Escaped(s)) == s <==> Plain(s)
  {
    if s != "" {
      hide EscapedChar, Escapes;
      var c, rest := s[0], s[1..];
      WithoutQuotesConcat(EscapedChar(c), Escaped(rest));
      StrippedChar(c);
      StrippedText(rest);
      assert Plain(s) <==> !Escapes(c) && Plain(rest) by {
        assert forall p :: 0 < p < |s| ==> s[p] == rest[p - 1];
        assert Plain(s) ==> forall p :: 0 <= p < |rest| ==> rest[p] == s[p + 1];
      }
      BackslashEscapes(c);
      if WithoutQuotes(Escaped(s)) == s {
        assert WithoutQuotes(Escaped(s))[0] == c;
        assert WithoutQuotes(Escaped(s))[|WithoutQuotes(EscapedChar(c))|..] == WithoutQuotes(Escaped(rest));
      }
    }
  }

  /** An identifier survives the encoder and the removal of quotes exactly when no character of it is escaped. */
  lemma StrippedIff(s: string)
    ensures Stripped(s) == s <==> Plain(s)
  {
    StrippedText(s);
    WithoutQuotesConcat("\"" + Escaped(s), "\"");
    WithoutQuotesConcat("\"", Escaped(s));
    assert "\""[1..] == "";
    assert WithoutQuotes("\"") == "";
  }

  lemma {:induction false} EscapedConcat(a: string, b: string)
    ensures Escaped(a + b) == Escaped(a) + Escaped(b)
  {
    if a == "" {
      assert a + b == b;
    } else {
      assert (a + b)[1..] == a[1..] + b;
      EscapedConcat(a[1..], b);
    }
  }

  lemma StrippedIsText(s: string)
    ensures Stripped(s) == WithoutQuotes(Escaped(s))
  {
    WithoutQuotesConcat("\"" + Escaped(s), "\"");
    WithoutQuotesConcat("\"", Escaped(s));
    assert "\""[1..] == "" && WithoutQuotes("\"") == "";
  }

  lemma StrippedConcat(a: string, b: string)
    ensures Stripped(a + b) == Stripped(a) + Stripped(b) && Stripped("") == ""
  {
    StrippedIsText(a + b);
    StrippedIsText(a);
    StrippedIsText(b);
    EscapedConcat(a, b);
    WithoutQuotesConcat(Escaped(a), Escaped(b));
    StrippedIsText("");
  }

  lemma {:induction false} NoQuotes(s: string)
    requires forall k :: 0 <= k < |s| ==> s[k] != '\"'
    ensures WithoutQuotes(s) == s
  {
    if s != "" {
      NoQuotes(s[1..]);
    }
  }

  lemma HexTable(d: int)
    requires 0 <= d < 16
    ensures HexDigit(d) as int == if d < 10 then 48 + d else 87 + d
  {
  }

  lemma HexFormDigits(n: int)
    requires 0 <= n < 0x1_0000
    ensures forall k :: 0 <= k < |HexForm(n)| ==> HexForm(n)[k] != '\"'
  {
    HexTable(n / 0x1000);
    HexTable(n / 0x100 % 0x10);
    HexTable(n / 0x10 % 0x10);
    HexTable(n % 0x10);
  }

  lemma QuoteFree(c: char)
    requires c != '\"'
    ensures forall k :: 0 <= k < |EscapedChar(c)| ==> EscapedChar(c)[k] != '\"'
  {
    hide HexForm;
    HexFormDigits((c as int) % 0x1_0000);
  }

  lemma StrippedOne(c: char)
    ensures Stripped([c]) == if c == '\"' then "\\" else EscapedChar(c)
  {
    StrippedIsText([c]);
    assert [c][1..] == "" && EscapedChar(c) + "" == EscapedChar(c);
    assert Escaped([c]) == EscapedChar(c);
    if c == '\"' {
      assert "\\\""[1..] == "\"" && WithoutQuotes("\"") == "";
    } else {
      hide EscapedChar, Escaped;
      QuoteFree(c);
      NoQuotes(EscapedChar(c));
    }
  }

  lemma HexForms()
    ensures HexForm(0x3c) == "\\u003c" && HexForm(0x3e) == "\\u003e" && HexForm(0x26) == "\\u0026"
    ensures HexForm(0x2028) == "\\u2028" && HexForm(0x2029) == "\\u2029"
  {
    assert HexDigit(0) == '0' && HexDigit(2) == '2' && HexDigit(3) == '3' && HexDigit(6) == '6' && HexDigit(8) == '8'
           && HexDigit(9) == '9' && HexDigit(12) == 'c' && HexDigit(14) == 'e';
    hide HexDigit;
  }

  lemma EscapedTable(c: char)
    ensures c == '\\' ==> EscapedChar(c) == "\\\\"
    ensures c == '\n' ==> EscapedChar(c) == "\\n"
    ensures c == '\r' ==> EscapedChar(c) == "\\r"
    ensures c == '\t' ==> EscapedChar(c) == "\\t"
    ensures c == '<' ==> EscapedChar(c) == "\\u003c"
    ensures c == '>' ==> EscapedChar(c) == "\\u003e"
    ensures c == '&' ==> EscapedChar(c) == "\\u0026"
    ensures c == '\U{2028}' ==> EscapedChar(c) == "\\u2028"
    ensures c == '\U{2029}' ==> EscapedChar(c) == "\\u2029"
    ensures c >= ' ' && c !in "\"\\<>&\U{2028}\U{2029}" ==> EscapedChar(c) == [c]
  {
    hide HexForm;
    HexForms();
  }

  lemma HexFormBelow32(n: int)
    requires 0 <= n < 32
    ensures HexForm(n) == "\\u00" + [if n < 16 then '0' else '1', HexDigit(n % 16)]
  {
    assert n / 0x1000 == 0 && n / 0x100 == 0 && n / 0x10 % 0x10 == if n < 16 then 0 else 1;
  }

  lemma EscapedControl(c: char)
    ensures c < ' ' && c !in "\n\r\t" ==>
              EscapedChar(c) == "\\u00" + [if (c as int) < 16 then '0' else '1', HexDigit((c as int) % 16)]
  {
    hide HexForm;
    if c < ' ' {
      HexFormBelow32(c as int);
    }
  }

  /** What is left of one character: the encoder's escapes, a quote losing all but its backslash. */
  lemma StrippedTable(c: char)
    ensures c == '\"' ==> Stripped([c]) == "\\"
    ensures c == '\\' ==> Stripped([c]) == "\\\\"
    ensures c == '\n' ==> Stripped([c]) == "\\n"
    ensures c == '\r' ==> Stripped([c]) == "\\r"
    ensures c == '\t' ==> Stripped([c]) == "\\t"
    ensures c == '<' ==> Stripped([c]) == "\\u003c"
    ensures c == '>' ==> Stripped([c]) == "\\u003e"
    ensures c == '&' ==> Stripped([c]) == "\\u0026"
    ensures c == '\U{2028}' ==> Stripped([c]) == "\\u2028"
    ensures c == '\U{2029}' ==> Stripped([c]) == "\\u2029"
    ensures c < ' ' && c !in "\n\r\t" ==>
              Stripped([c]) == "\\u00" + [if (c as int) < 16 then '0' else '1', HexDigit((c as int) % 16)]
    ensures c >= ' ' && c !in "\"\\<>&\U{2028}\U{2029}" ==> Stripped([c]) == [c]
  {
    hide Stripped, EscapedChar, Escapes, HexDigit;
    StrippedOne(c);
    EscapedTable(c);
    EscapedControl(c);
  }

  // ---------------------------------------------------------------- specification

  /** `getAASDescriptorsFromEndpointRegistry`: by the receiver's id, else by protocol and role. */
  function RouteOf(frame: Frame): Option<Route> {
    if frame.receiver.None? then None
    else
      var r := frame.receiver.value;
      if r.identification.Some? && r.identification.value.id != "" then Some(ById(r.identification.value.id))
      else if frame.semanticProtocol != "" && r.role.Some? && r.role.value != "" then
        Some(ByRole(frame.semanticProtocol, r.role.value))
      else None
  }

  predicate Identified(frame: Frame) {
    && frame.receiver.Some? && frame.receiver.value.identification.Some?
    && frame.receiver.value.identification.value.id != ""
  }

  /** The message for an endpoint: an unidentified receiver gets the identification of the descriptor. */
  function Rewritten(body: Body, d: Descriptor): Body {
    if Identified(body.frame) || body.frame.receiver.None? then body
    else
      var id := Identification(Stripped(d.identification.id), Stripped(d.identification.idType));
      body.(frame := body.frame.(receiver := Some(body.frame.receiver.value.(identification := Some(id)))))
  }

  function RoutingKey(endpointType: string): Option<string> {
    if endpointType == "grpc" then Some("egress.grpc")
    else if endpointType == "http" || endpointType == "https" then Some("egress.http")
    else None
  }

  function MessageFor(body: Body, d: Descriptor, e: Endpoint, validCert: string -> bool): ResolverMsg {
    ResolverMsg(Rewritten(body, d), e.address, e.endpointType, e.target,
                if validCert(e.tlsCertificate) then e.tlsCertificate else "", e.user, e.password)
  }

  datatype Target = Target(d: Descriptor, e: Endpoint)

  function TargetsOf(d: Descriptor): (r: seq<Target>) {
    if d.descriptor.None? || d.descriptor.value.None? then []
    else
      var es := d.descriptor.value.value;
      seq(|es|, i requires 0 <= i < |es| => Target(d, es[i]))
  }

  /** All endpoints of all usable descriptors, in order. */
  function Targets(ds: seq<Descriptor>): seq<Target> {
    if ds == [] then [] else Targets(ds[..|ds| - 1]) + TargetsOf(ds[|ds| - 1])
  }

  predicate Supported(t: Target) {
    RoutingKey(t.e.endpointType).Some?
  }

  function PublicationFor(body: Body, t: Target, validCert: string -> bool): Publication
    requires Supported(t)
  {
    Publication(RoutingKey(t.e.endpointType).value, MessageFor(body, t.d, t.e, validCert))
  }

  predicate AllSupported(ts: seq<Target>) {
    forall p :: 0 <= p < |ts| ==> Supported(ts[p])
  }

  function Publications(body: Body, ts: seq<Target>, validCert: string -> bool): (r: seq<Publication>)
    requires AllSupported(ts)
    ensures |r| == |ts|
  {
    seq(|ts|, i requires 0 <= i < |ts| => PublicationFor(body, ts[i], validCert))
  }

  /** The longest run of supported targets from the front. */
  function SupportedPrefix(ts: seq<Target>): (n: nat)
    ensures n <= |ts| && AllSupported(ts[..n]) && (n < |ts| ==> !Supported(ts[n]))
  {
    if ts == [] || !Supported(ts[0]) then 0
    else
      var n := 1 + SupportedPrefix(ts[1..]);
      assert forall p :: 0 < p < n ==> ts[..n][p] == ts[1..][..n - 1][p - 1];
      n
  }

  lemma PrefixUnique(ts: seq<Target>, n: nat)
    requires n <= |ts| && AllSupported(ts[..n]) && (n < |ts| ==> !Supported(ts[n]))
    ensures SupportedPrefix(ts) == n
  {
    var m := SupportedPrefix(ts);
    forall k | 0 <= k < n
      ensures Supported(ts[k])
    {
      assert ts[..n][k] == ts[k];
    }
    forall k | 0 <= k < m
      ensures Supported(ts[k])
    {
      assert ts[..m][k] == ts[k];
    }
  }

  lemma OneMore(body: Body, ts: seq<Target>, t: Target, validCert: string -> bool)
    requires AllSupported(ts) && Supported(t)
    ensures AllSupported(ts + [t])
    ensures Publications(body, ts + [t], validCert)
         == Publications(body, ts, validCert) + [PublicationFor(body, t, validCert)]
  {
  }

  lemma NoTargets(body: Body, validCert: string -> bool)
    ensures AllSupported([]) && Publications(body, [], validCert) == []
  {
  }

  lemma Concatenated(body: Body, a: seq<Target>, b: seq<Target>, validCert: string -> bool)
    requires AllSupported(a) && AllSupported(b)
    ensures AllSupported(a + b)
    ensures Publications(body, a + b, validCert) == Publications(body, a, validCert) + Publications(body, b, validCert)
  {
  }

  /** The targets of the first `i` descriptors come first. */
  lemma {:induction false} TargetsFrom(ds: seq<Descriptor>, i: nat)
    requires i <= |ds|
    ensures Targets(ds[..i]) <= Targets(ds)
    decreases |ds|
  {
    if i < |ds| {
      var init := ds[..|ds| - 1];
      TargetsFrom(init, i);
      assert init[..i] == ds[..i];
    } else {
      assert ds[..i] == ds;
    }
  }

  /** The targets of descriptor `i` follow those of the descriptors before it. */
  lemma TargetAt(ds: seq<Descriptor>, i: nat, j: nat)
    requires i < |ds| && j < |TargetsOf(ds[i])|
    ensures |Targets(ds[..i])| + j < |Targets(ds)|
    ensures Targets(ds)[..|Targets(ds[..i])| + j] == Targets(ds[..i]) + TargetsOf(ds[i])[..j]
    ensures Targets(ds)[|Targets(ds[..i])| + j] == TargetsOf(ds[i])[j]
  {
    hide TargetsOf;
    TargetsFrom(ds, i + 1);
    assert ds[..i + 1][..i] == ds[..i];
  }

  // ---------------------------------------------------------------- what is published

  /** The publication for an endpoint, attribute by attribute. */
  predicate Carries(p: Publication, body: Body, d: Descriptor, e: Endpoint, validCert: string -> bool) {
    && (e.endpointType == "grpc" ==> p.routingKey == "egress.grpc")
    && (e.endpointType in {"http", "https"} ==> p.routingKey == "egress.http")
    && p.msg.receiverUrl == e.address && p.msg.receiverType == e.endpointType && p.msg.receiverTarget == e.target
    && p.msg.receiverUser == e.user && p.msg.receiverPassword == e.password
    && p.msg.receiverTlsCert == (if validCert(e.tlsCertificate) then e.tlsCertificate else "")
    && p.msg.egressPayload.elements == body.elements
    && p.msg.egressPayload.frame.semanticProtocol == body.frame.semanticProtocol
    && p.msg.egressPayload.frame.rest == body.frame.rest
    && body.frame.receiver.Some? && p.msg.egressPayload.frame.receiver.Some?
    && var before, sent := body.frame.receiver.value, p.msg.egressPayload.frame.receiver.value;
       && sent.role == before.role
       && sent.identification
          == if before.identification.Some? && before.identification.value.id != "" then before.identification
             else Some(Identification(Stripped(d.identification.id), Stripped(d.identification.idType)))
  }

  /** The number of endpoints of the first `i` descriptors; a descriptor without the attributes has none. */
  function Offset(ds: seq<Descriptor>, i: nat): nat
    requires i <= |ds|
  {
    if i == 0 then 0
    else
      Offset(ds, i - 1)
      + match ds[i - 1].descriptor { case Some(Some(es)) => |es| case _ => 0 }
  }

  lemma {:induction false} OffsetOfTargets(ds: seq<Descriptor>, i: nat)
    requires i <= |ds|
    ensures |Targets(ds[..i])| == Offset(ds, i)
  {
    if i > 0 {
      OffsetOfTargets(ds, i - 1);
      assert ds[..i][..i - 1] == ds[..i - 1];
    }
  }

  lemma PublicationCarries(body: Body, t: Target, validCert: string -> bool)
    requires Supported(t) && body.frame.receiver.Some?
    ensures Carries(PublicationFor(body, t, validCert), body, t.d, t.e, validCert)
  {
    hide Stripped;
  }

  lemma PublishedAt(body: Body, ts: seq<Target>, n: nat, p: nat, validCert: string -> bool)
    requires p < n <= |ts| && AllSupported(ts[..n]) && body.frame.receiver.Some?
    ensures |Publications(body, ts[..n], validCert)| == n
    ensures Carries(Publications(body, ts[..n], validCert)[p], body, ts[p].d, ts[p].e, validCert)
  {
    hide Carries, Stripped;
    assert ts[..n][p] == ts[p] && Supported(ts[p]);
    PublicationCarries(body, ts[p], validCert);
  }

  lemma SupportedMeans(ts: seq<Target>, p: nat)
    requires p < |ts|
    ensures p < SupportedPrefix(ts) <==> forall q :: 0 <= q <= p ==> ts[q].e.endpointType in {"grpc", "http", "https"}
  {
    var n := SupportedPrefix(ts);
    hide SupportedPrefix;
    forall q | 0 <= q < n
      ensures ts[q].e.endpointType in {"grpc", "http", "https"}
    {
      assert ts[..n][q] == ts[q] && Supported(ts[q]);
    }
  }

  /**
   * The publications of a fan-out, by position: endpoint `j` of descriptor `i` is published behind all endpoints
   * before it, with its own attributes, if and only if it and all of those have type "grpc", "http" or "https".
   */
  lemma FanOutAt(body: Body, ds: seq<Descriptor>, validCert: string -> bool, i: nat, j: nat, es: seq<Endpoint>)
    requires i < |ds| && ds[i].descriptor == Some(Some(es)) && j < |es| && body.frame.receiver.Some?
    ensures var ts, p := Targets(ds), Offset(ds, i) + j;
            var n := SupportedPrefix(ts);
            && |ts| == Offset(ds, |ds|) && p < |ts| && ts[p] == Target(ds[i], es[j])
            && (p < n <==> forall q :: 0 <= q <= p ==> ts[q].e.endpointType in {"grpc", "http", "https"})
            && |Publications(body, ts[..n], validCert)| == n
            && (p < n ==> Carries(Publications(body, ts[..n], validCert)[p], body, ds[i], es[j], validCert))
  {
    hide Targets, Offset, SupportedPrefix, Publications, Carries, AllSupported;
    OffsetOfTargets(ds, i);
    OffsetOfTargets(ds, |ds|);
    assert ds[..|ds|] == ds;
    TargetAt(ds, i, j);
    var ts, p := Targets(ds), Offset(ds, i) + j;
    SupportedMeans(ts, p);
    if p < SupportedPrefix(ts) {
      PublishedAt(body, ts, SupportedPrefix(ts), p, validCert);
    }
  }

  // ---------------------------------------------------------------- the loops

  lemma AllOrPrefix(ts: seq<Target>)
    ensures AllSupported(ts) <==> SupportedPrefix(ts) == |ts|
  {
    if AllSupported(ts) {
      assert ts[..|ts|] == ts;
      PrefixUnique(ts, |ts|);
    } else {
      assert ts[..|ts|] == ts;
    }
  }

  /** The descriptors a message resolves to, or why it does not. */
  function Plan(msg: Option<Body>, registry: Route -> Answer): Result<seq<Descriptor>, Error> {
    if msg.None? then Err(MalformedMessage)
    else
      var route := RouteOf(msg.value.frame);
      if route.None? then Err(ReceiverNotSpecified)
      else
        match registry(route.value)
        case Failed => Err(RegistryFailed)
        case Empty => Ok([])
        case Descriptors(ds) => Ok(ds)
  }

  /**
   * Where the descriptors come from: the registry is asked by the id of an identified receiver, otherwise by protocol
   * and role if both are given; without either, or without a message, nothing is asked.
   */
  lemma PlanMeans(frame: Frame, elements: string, registry: Route -> Answer)
    ensures Plan(None, registry) == Err(MalformedMessage)
    ensures var plan, r := Plan(Some(Body(frame, elements)), registry), frame.receiver;
            var byId := r.Some? && r.value.identification.Some? && r.value.identification.value.id != "";
            var byRole := r.Some? && frame.semanticProtocol != "" && r.value.role.Some? && r.value.role.value != "";
            if !byId && !byRole then plan == Err(ReceiverNotSpecified)
            else
              var answer := registry(if byId then ById(r.value.identification.value.id)
                                     else ByRole(frame.semanticProtocol, r.value.role.value));
              && (plan == Err(RegistryFailed) <==> answer.Failed?)
              && (answer.Empty? ==> plan == Ok([]))
              && (answer.Descriptors? ==> plan == Ok(answer.found))
  {
  }

  /** Exactly one publication per target up to the first unsupported one, in order; nothing when there is no plan. */
  predicate Delivered(msg: Option<Body>, registry: Route -> Answer, validCert: string -> bool,
                      before: seq<Publication>, after: seq<Publication>) {
    match Plan(msg, registry)
    case Err(_) => after == before
    case Ok(ds) =>
      if ds == [] then after == before
      else
        msg.Some? &&
        var ts := Targets(ds);
        after == before + Publications(msg.value, ts[..SupportedPrefix(ts)], validCert)
  }

  class Resolver {
    var published: seq<Publication>
    var acked: nat
    var nacked: nat

    constructor ()
      ensures published == [] && acked == 0 && nacked == 0
    {
      published, acked, nacked := [], 0, 0;
    }

    /** One endpoint: build the message, choose the routing key, publish. */
    method ProcessEndpoint(body: Body, d: Descriptor, e: Endpoint, validCert: string -> bool)
      returns (r: Result<(), Error>)
      requires body.frame.receiver.Some?
      modifies this`published
      ensures Supported(Target(d, e)) ==>
                r == Ok(()) && published == old(published) + [PublicationFor(body, Target(d, e), validCert)]
      ensures !Supported(Target(d, e)) ==> r == Err(UnsupportedType(e.endpointType)) && published == old(published)
      ensures r.Ok? <==> e.endpointType in {"grpc", "http", "https"}
      ensures r.Ok? ==> |published| == |old(published)| + 1 && old(published) <= published
                        && Carries(published[|published| - 1], body, d, e, validCert)
    {
      var tlsCert := e.tlsCertificate;
      if !validCert(tlsCert) {
        tlsCert := "";
      }
      var resolverMsg :=
        ResolverMsg(body, e.address, e.endpointType, e.target, tlsCert, e.user, e.password);
      var receiver := body.frame.receiver.value;
      if receiver.identification.None? || receiver.identification.value.id == "" {
        var id := WithoutQuotes(JsonText(d.identification.id));
        var idType := WithoutQuotes(JsonText(d.identification.idType));
        var frame := body.frame.(receiver := Some(receiver.(identification := Some(Identification(id, idType)))));
        resolverMsg := resolverMsg.(egressPayload := Body(frame, body.elements));
      }
      var routingKey;
      if e.endpointType == "grpc" {
        routingKey := "egress.grpc";
      } else if e.endpointType == "http" || e.endpointType == "https" {
        routingKey := "egress.http";
      } else {
        return Err(UnsupportedType(e.endpointType));
      }
      published := published + [Publication(routingKey, resolverMsg)];
      r := Ok(());
    }

    /** The inner loop: the endpoints of one descriptor, up to the first of unsupported type. */
    method FanOutOne(body: Body, d: Descriptor, validCert: string -> bool)
      returns (r: Result<(), Error>, j: nat)
      requires body.frame.receiver.Some?
      modifies this`published
      ensures j <= |TargetsOf(d)| && AllSupported(TargetsOf(d)[..j])
      ensures j < |TargetsOf(d)| ==> !Supported(TargetsOf(d)[j])
      ensures r == if j == |TargetsOf(d)| then Ok(()) else Err(UnsupportedType(TargetsOf(d)[j].e.endpointType))
      ensures published == old(published) + Publications(body, TargetsOf(d)[..j], validCert)
    {
      hide Publications, PublicationFor, AllSupported;
      j, r := 0, Ok(());
      NoTargets(body, validCert);
      if d.descriptor.None? || d.descriptor.value.None? {
        return;
      }
      var endpoints := d.descriptor.value.value;
      while j < |endpoints|
        invariant j <= |endpoints| && AllSupported(TargetsOf(d)[..j]) && r == Ok(())
        invariant published == old(published) + Publications(body, TargetsOf(d)[..j], validCert)
      {
        ghost var here := TargetsOf(d);
        assert here[j] == Target(d, endpoints[j]);
        r := ProcessEndpoint(body, d, endpoints[j], validCert);
        if r.Err? {
          return;
        }
        assert here[..j + 1] == here[..j] + [here[j]];
        OneMore(body, here[..j], here[j], validCert);
        j := j + 1;
      }
    }

    /** The nested loops over descriptors and endpoints. */
    method FanOut(body: Body, ds: seq<Descriptor>, validCert: string -> bool) returns (r: Result<(), Error>)
      requires body.frame.receiver.Some?
      modifies this`published
      ensures var ts := Targets(ds);
              var n := SupportedPrefix(ts);
              && published == old(published) + Publications(body, ts[..n], validCert)
              && r == if n == |ts| then Ok(()) else Err(UnsupportedType(ts[n].e.endpointType))
    {
      hide Publications, PublicationFor, AllSupported, TargetsOf, Supported, SupportedPrefix;
      NoTargets(body, validCert);
      var i := 0;
      while i < |ds|
        invariant 0 <= i <= |ds| && AllSupported(Targets(ds[..i]))
        invariant published == old(published) + Publications(body, Targets(ds[..i]), validCert)
      {
        ghost var done, here := Targets(ds[..i]), TargetsOf(ds[i]);
        var result, j := FanOutOne(body, ds[i], validCert);
        Concatenated(body, done, here[..j], validCert);
        if result.Err? {
          TargetAt(ds, i, j);
          PrefixUnique(Targets(ds), |done| + j);
          return result;
        }
        assert here[..j] == here;
        assert ds[..i + 1][..i] == ds[..i];
        i := i + 1;
      }
      assert ds[..|ds|] == ds;
      var ts := Targets(ds);
      assert ts[..|ts|] == ts;
      PrefixUnique(ts, |ts|);
      r := Ok(());
    }

    /** `processGenericEgressMsg`: parse, ask the registry, fan out; an empty answer drops the message. */
    method ProcessGenericEgressMsg(msg: Option<Body>, registry: Route -> Answer, validCert: string -> bool)
      returns (r: Result<(), Error>)
      modifies this`published
      ensures match Plan(msg, registry)
              case Err(e) => r == Err(e) && published == old(published)
              case Ok(ds) =>
                var ts := Targets(ds);
                var n := SupportedPrefix(ts);
                && (ds != [] ==> published == old(published) + Publications(msg.value, ts[..n], validCert))
                && (ds == [] ==> published == old(published))
                && r == if n == |ts| then Ok(()) else Err(UnsupportedType(ts[n].e.endpointType))
    {
      if msg.None? {
        return Err(MalformedMessage);
      }
      var body := msg.value;
      var route := RouteOf(body.frame);
      if route.None? {
        return Err(ReceiverNotSpecified);
      }
      match registry(route.value) {
        case Failed => return Err(RegistryFailed);
        case Empty => return Ok(());
        case Descriptors(ds) =>
          if |ds| == 0 {
            return Ok(());
          }
          r := FanOut(body, ds, validCert);
      }
    }

    /** `processDelivery`: acknowledge on nil, reject without requeueing otherwise. */
    method ProcessDelivery(msg: Option<Body>, registry: Route -> Answer, validCert: string -> bool)
      modifies this
      ensures acked + nacked == old(acked) + old(nacked) + 1
      ensures acked == old(acked) + 1 <==>
                Plan(msg, registry).Ok? && forall p :: 0 <= p < |Targets(Plan(msg, registry).value)| ==>
                  Targets(Plan(msg, registry).value)[p].e.endpointType in {"grpc", "http", "https"}
      ensures Delivered(msg, registry, validCert, old(published), published)
    {
      ghost var before := published;
      var r := ProcessGenericEgressMsg(msg, registry, validCert);
      if Plan(msg, registry).Ok? {
        var ts := Targets(Plan(msg, registry).value);
        AllOrPrefix(ts);
        assert ts[..SupportedPrefix(ts)] <= ts;
        ghost var types := {"grpc", "http", "https"};
        assert AllSupported(ts) <==> forall p :: 0 <= p < |ts| ==> ts[p].e.endpointType in types by {
          assert forall p :: 0 <= p < |ts| ==> (Supported(ts[p]) <==> ts[p].e.endpointType in types);
        }
      }
      if r.Err? {
        nacked := nacked + 1;
      } else {
        acked := acked + 1;
      }
    }
  }

  // ---------------------------------------------------------------- what is sent

  lemma StrippedIsEmptyIff(s: string)
    ensures Stripped(s) == "" <==> s == ""
  {
    StrippedText(s);
    WithoutQuotesConcat("\"" + Escaped(s), "\"");
    WithoutQuotesConcat("\"", Escaped(s));
    assert "\""[1..] == "" && WithoutQuotes("\"") == "";
  }

  /**
   * A message leaves with an identified receiver exactly if it came with one or the descriptor's id is not empty. From
   * then on the resolver passes it on as it is, whatever descriptors it meets; before that it never does so for an
   * identification other than the one already written.
   */
  lemma IdentifiedForGoodIff(body: Body, d: Descriptor)
    requires body.frame.receiver.Some?
    ensures var sent := Rewritten(body, d);
            && (Identified(sent.frame) <==> Identified(body.frame) || d.identification.id != "")
            && (Identified(sent.frame) <==> forall d' :: Rewritten(sent, d') == sent)
            && (Identified(body.frame) ==> sent == body)
  {
    StrippedIsEmptyIff(d.identification.id);
    var sent := Rewritten(body, d);
    if !Identified(sent.frame) {
      var other := Descriptor(Identification("x", ""), None);
      StrippedIsEmptyIff("x");
      assert Rewritten(sent, other) != sent;
    }
  }

  /**
   * For an unidentified receiver only the identification changes, it becomes the descriptor's exactly when the
   * descriptor's id and type are plain, and a message resolved again then goes by that id.
   */
  lemma UnidentifiedGetsDescriptor(body: Body, d: Descriptor)
    requires body.frame.receiver.Some? && !Identified(body.frame)
    ensures var sent := Rewritten(body, d);
            && sent.elements == body.elements && sent.frame.rest == body.frame.rest
            && sent.frame.semanticProtocol == body.frame.semanticProtocol
            && sent.frame.receiver.Some? && sent.frame.receiver.value.role == body.frame.receiver.value.role
            && (sent.frame.receiver.value.identification == Some(d.identification)
                <==> Plain(d.identification.id) && Plain(d.identification.idType))
            && (Plain(d.identification.id) && d.identification.id != "" ==>
                  RouteOf(sent.frame) == Some(ById(d.identification.id)) && Rewritten(sent, d) == sent)
  {
    StrippedIff(d.identification.id);
    StrippedIff(d.identification.idType);
  }
}
