/**
 * The request service of the container deployment: the client principal
 * read from the inbound X-MS-CLIENT-PRINCIPAL header, and the auth status
 * fetched from the platform's /.auth/me endpoint with the inbound headers
 * copied onto the shared HttpClient.
 */
module ContainerRequestService {
  import opened Wrappers
  import opened Exceptions
  import opened Text
  import opened Json
  import Base64
  import Seqs
  import ClientPrincipal

  /** One inbound header with all of its values, as the header dictionary enumerates it. */
  datatype Header = Header(name: string, values: seq<string>)

  const ClientPrincipalHeader: string := "X-MS-CLIENT-PRINCIPAL"
  const NoClientPrincipal: string := "No client principal found"

  /** The names of a header dictionary are unique, ignoring case. */
  predicate DistinctNames(headers: seq<Header>) {
    forall i, j :: 0 <= i < j < |headers| ==> !EqualsIgnoreCase(headers[i].name, headers[j].name)
  }

  /** No two headers have the same name. */
  predicate UniqueNames(headers: seq<Header>) {
    forall i, j :: 0 <= i < j < |headers| ==> headers[i].name != headers[j].name
  }

  /** Names distinct ignoring case are distinct. */
  lemma DistinctNamesUnique(headers: seq<Header>)
    requires DistinctNames(headers)
    ensures UniqueNames(headers)
  {
    forall i, j | 0 <= i < j < |headers|
      ensures headers[i].name != headers[j].name
    {
      assert !EqualsIgnoreCase(headers[i].name, headers[j].name);
    }
  }

  /**
   * The dictionary indexer `headers[name]`: the values of the first header
   * whose name matches ignoring case, and no values when none does.
   */
  function HeaderValues(headers: seq<Header>, name: string): (vs: seq<string>)
    ensures (forall i :: 0 <= i < |headers| ==> !EqualsIgnoreCase(headers[i].name, name)) ==> vs == []
    ensures forall i :: (0 <= i < |headers| && EqualsIgnoreCase(headers[i].name, name)
      && (forall j :: 0 <= j < i ==> !EqualsIgnoreCase(headers[j].name, name))) ==> vs == headers[i].values
  {
    if headers == [] then []
    else if EqualsIgnoreCase(headers[0].name, name) then headers[0].values
    else
      assert forall i :: 0 < i < |headers| ==> headers[i] == headers[1..][i - 1];
      HeaderValues(headers[1..], name)
  }

  /** The values that are not empty, in their order. */
  function NonEmptyValues(values: seq<string>): (r: seq<string>)
    ensures |r| <= |values|
  {
    if values == [] then []
    else if values[0] == "" then NonEmptyValues(values[1..])
    else [values[0]] + NonEmptyValues(values[1..])
  }

  /** The kept values are exactly the values that are not empty; none is kept exactly when all are empty. */
  lemma {:induction false} NonEmptyValuesMembers(values: seq<string>)
    ensures forall s :: s in NonEmptyValues(values) <==> s in values && s != ""
    ensures NonEmptyValues(values) == [] <==> forall s :: s in values ==> s == ""
    decreases |values|
  {
    if values != [] {
      NonEmptyValuesMembers(values[1..]);
      assert forall s :: s in values <==> s == values[0] || s in values[1..];
      assert values[0] in values;
    }
  }

  /**
   * The values are filtered one by one: a value is kept exactly when it is
   * not empty, and the kept values stay in order with repeats.
   */
  lemma {:induction false} NonEmptyValuesAppend(a: seq<string>, b: seq<string>)
    ensures NonEmptyValues(a + b) == NonEmptyValues(a) + NonEmptyValues(b)
    decreases |a|
  {
    if a != [] {
      Seqs.HeadTailAppend(a, b);
      NonEmptyValuesAppend(a[1..], b);
      if a[0] != "" {
        assert NonEmptyValues(a + b) == [a[0]] + NonEmptyValues(a[1..] + b);
        assert NonEmptyValues(a) == [a[0]] + NonEmptyValues(a[1..]);
      }
    } else {
      assert a + b == b;
    }
  }

  /**
   * The conversion of a header's StringValues to string: null when there
   * are none, the value itself when there is one, and otherwise the values
   * that are not empty joined with ','.
   */
  function AsString(values: seq<string>): Option<string> {
    if values == [] then None
    else if |values| == 1 then Some(values[0])
    else Some(Join(NonEmptyValues(values), ","))
  }

  /** The header value GetClientPrincipal works on. */
  function EncodedPrincipal(headers: seq<Header>): Option<string> {
    AsString(HeaderValues(headers, ClientPrincipalHeader))
  }

  /**
   * GetClientPrincipal: the sentinel for a missing or blank header;
   * otherwise the header is decoded and the principal serialized (`render`
   * stands for the indented JSON writer), and a decoding failure is thrown,
   * never replaced by the sentinel.
   */
  function GetClientPrincipal(
    headers: seq<Header>, parse: seq<Base64.byte> -> Result<JsonValue>, render: JsonValue -> string)
    : (r: Result<string>)
    ensures IsNullOrWhiteSpace(EncodedPrincipal(headers)) ==> r == Ok(NoClientPrincipal)
    ensures r.Err? ==> && !IsNullOrWhiteSpace(EncodedPrincipal(headers))
                       && ClientPrincipal.ParseMsClientPrincipal(EncodedPrincipal(headers).value, parse) == Err(r.error)
    ensures !IsNullOrWhiteSpace(EncodedPrincipal(headers)) && r.Ok? ==>
      exists p :: ClientPrincipal.ParseMsClientPrincipal(EncodedPrincipal(headers).value, parse) == Ok(p)
        && r.value == render(ClientPrincipal.ToJson(p))
  {
    var encoded := EncodedPrincipal(headers);
    if IsNullOrWhiteSpace(encoded) then Ok(NoClientPrincipal)
    else
      var principal := ClientPrincipal.ParseMsClientPrincipal(encoded.value, parse);
      if principal.Err? then Err(principal.error)
      else Ok(render(ClientPrincipal.ToJson(principal.value)))
  }

  /** Without an X-MS-CLIENT-PRINCIPAL header the sentinel comes back, whatever the decoder would do. */
  lemma MissingHeaderGivesSentinel(
    headers: seq<Header>, parse: seq<Base64.byte> -> Result<JsonValue>, render: JsonValue -> string)
    requires forall i :: 0 <= i < |headers| ==> !EqualsIgnoreCase(headers[i].name, ClientPrincipalHeader)
    ensures GetClientPrincipal(headers, parse, render) == Ok(NoClientPrincipal)
  {
  }

  /** A blank header is never decoded: the result does not depend on the decoder or the writer. */
  lemma BlankHeaderNotDecoded(
    headers: seq<Header>,
    parse1: seq<Base64.byte> -> Result<JsonValue>, parse2: seq<Base64.byte> -> Result<JsonValue>,
    render1: JsonValue -> string, render2: JsonValue -> string)
    requires IsNullOrWhiteSpace(EncodedPrincipal(headers))
    ensures GetClientPrincipal(headers, parse1, render1) == GetClientPrincipal(headers, parse2, render2)
  {
  }

  /** A header value that is not base 64 is thrown as a FormatException, not turned into the sentinel. */
  lemma MalformedHeaderThrows(
    headers: seq<Header>, parse: seq<Base64.byte> -> Result<JsonValue>, render: JsonValue -> string)
    requires !IsNullOrWhiteSpace(EncodedPrincipal(headers))
    requires !Base64.IsBase64(EncodedPrincipal(headers).value)
    ensures GetClientPrincipal(headers, parse, render) == Err(FormatException(InvalidBase64Message))
  {
  }

  /** A header whose values are all empty, or that is missing, gives the sentinel. */
  lemma EmptyValuesGiveSentinel(
    headers: seq<Header>, parse: seq<Base64.byte> -> Result<JsonValue>, render: JsonValue -> string)
    requires forall v :: v in HeaderValues(headers, ClientPrincipalHeader) ==> v == ""
    ensures GetClientPrincipal(headers, parse, render) == Ok(NoClientPrincipal)
  {
    var values := HeaderValues(headers, ClientPrincipalHeader);
    if |values| == 1 {
      assert values[0] in values;
    } else if |values| > 1 {
      NonEmptyValuesMembers(values);
      assert EncodedPrincipal(headers) == Some("");
    }
  }

  /**
   * A principal header with two or more values that are not empty is joined
   * with ',', which is not base 64, so it is thrown as a FormatException.
   */
  lemma MultiValuedHeaderThrows(
    headers: seq<Header>, parse: seq<Base64.byte> -> Result<JsonValue>, render: JsonValue -> string)
    requires |NonEmptyValues(HeaderValues(headers, ClientPrincipalHeader))| >= 2
    ensures GetClientPrincipal(headers, parse, render) == Err(FormatException(InvalidBase64Message))
  {
    var kept := NonEmptyValues(HeaderValues(headers, ClientPrincipalHeader));
    var joined := Join(kept, ",");
    assert EncodedPrincipal(headers) == Some(joined);
    var k := |kept[0]|;
    assert joined == kept[0] + "," + Join(kept[1..], ",");
    assert joined[k] == ',';
    assert !IsNullOrWhiteSpace(Some(joined)) by { assert !IsWhiteSpace(joined[k]); }
    Base64.ForeignCharRejected(joined, k);
    Base64.DecodeSucceedsIff(joined);
  }

  /**
   * A header whose one value that is not empty is the base 64 encoding of a
   * principal's serialized form is answered with that principal, serialized
   * again; empty values beside it are skipped.
   */
  lemma EncodedPrincipalServed(
    headers: seq<Header>, p: ClientPrincipal.MsClientPrincipal, bytes: seq<Base64.byte>,
    parse: seq<Base64.byte> -> Result<JsonValue>, render: JsonValue -> string)
    requires NonEmptyValues(HeaderValues(headers, ClientPrincipalHeader)) == [Base64.Encode(bytes)]
    requires bytes != [] && parse(bytes) == Ok(ClientPrincipal.ToJson(p))
    ensures GetClientPrincipal(headers, parse, render) == Ok(render(ClientPrincipal.ToJson(p)))
  {
    var values := HeaderValues(headers, ClientPrincipalHeader);
    var encoded := Base64.Encode(bytes);
    if |values| == 1 {
      assert NonEmptyValues(values) == if values[0] == "" then [] else [values[0]];
    }
    assert EncodedPrincipal(headers) == Some(encoded);
    assert !IsNullOrWhiteSpace(Some(encoded)) by { assert !IsWhiteSpace(encoded[0]); }
    ClientPrincipal.HeaderRoundTrip(p, bytes, parse);
  }

  /*
   * GetAuthMe.
   */

  /**
   * What HttpHeaders.Add throws for a header name it refuses (malformed, or
   * a content header on a request).
   */
  type NameRule = string -> Option<Exception>

  /**
   * What HttpHeaders.Add throws for one value it refuses: the header's name,
   * the values it already holds, and the value being added.
   */
  type ValueRule = (string, seq<string>, string) -> Option<Exception>

  /**
   * How many leading values Add accepts, one after another, for a header
   * that already holds `held`.
   */
  function AcceptedCount(valueRule: ValueRule, name: string, held: seq<string>, values: seq<string>): (n: nat)
    ensures n <= |values|
    decreases |values|
  {
    if values == [] || valueRule(name, held, values[0]).Some? then 0
    else 1 + AcceptedCount(valueRule, name, held + [values[0]], values[1..])
  }

  /**
   * The values are judged in order, each against the values held before
   * it: every value before the count is accepted, and the value at the
   * count, if any, is refused.
   */
  lemma {:induction false} AcceptedCountSpec(valueRule: ValueRule, name: string, held: seq<string>, values: seq<string>)
    ensures var n := AcceptedCount(valueRule, name, held, values);
      && (forall j :: 0 <= j < n ==> valueRule(name, held + values[..j], values[j]).None?)
      && (n < |values| ==> valueRule(name, held + values[..n], values[n]).Some?)
    decreases |values|
  {
    if values == [] || valueRule(name, held, values[0]).Some? {
      assert held + values[..0] == held;
    } else {
      AcceptedCountSpec(valueRule, name, held + [values[0]], values[1..]);
      var n := AcceptedCount(valueRule, name, held, values);
      forall j | 0 <= j < n ensures valueRule(name, held + values[..j], values[j]).None? {
        if j == 0 {
          assert held + values[..0] == held;
        } else {
          assert held + [values[0]] + values[1..][..j - 1] == held + values[..j];
          assert values[1..][j - 1] == values[j];
        }
      }
      if n < |values| {
        assert held + [values[0]] + values[1..][..n - 1] == held + values[..n];
        assert values[1..][n - 1] == values[n];
      }
    }
  }

  /** The values Add stores before it throws, or all of them when it does not throw. */
  function AcceptedValues(
    nameRule: NameRule, valueRule: ValueRule, name: string, held: seq<string>, values: seq<string>): seq<string>
  {
    if nameRule(name).Some? then [] else values[..AcceptedCount(valueRule, name, held, values)]
  }

  /** What Add throws: the name's refusal, or the refusal of the first value not accepted. */
  function AddRefusal(
    nameRule: NameRule, valueRule: ValueRule, name: string, held: seq<string>, values: seq<string>): Option<Exception>
  {
    if nameRule(name).Some? then nameRule(name)
    else
      var n := AcceptedCount(valueRule, name, held, values);
      if n < |values| then valueRule(name, held + values[..n], values[n]) else None
  }

  /**
   * Add stores the accepted values even when it then throws: a refusal
   * keeps exactly the values before the first refused one, and Add throws
   * nothing exactly when the name and every value are accepted, all of
   * them then being stored.
   */
  lemma AddKeepsAcceptedPrefix(
    nameRule: NameRule, valueRule: ValueRule, name: string, held: seq<string>, values: seq<string>)
    ensures var kept := AcceptedValues(nameRule, valueRule, name, held, values);
      && kept <= values
      && (AddRefusal(nameRule, valueRule, name, held, values).None? <==> nameRule(name).None? && kept == values)
      && (nameRule(name).None? && kept != values ==>
            AddRefusal(nameRule, valueRule, name, held, values) == valueRule(name, held + kept, values[|kept|]))
  {
    if nameRule(name).None? {
      AcceptedCountSpec(valueRule, name, held, values);
      var n := AcceptedCount(valueRule, name, held, values);
      assert |values[..n]| == n && values[..n] <= values;
    }
  }

  /** The dictionary after the values `added` are stored under `name`: a new header with no values is not stored. */
  function Store(stored: map<string, seq<string>>, name: string, added: seq<string>): map<string, seq<string>> {
    if added == [] then stored else stored[name := Held(stored, name) + added]
  }

  /** The values a dictionary holds under `name`. */
  function Held(stored: map<string, seq<string>>, name: string): seq<string> {
    if name in stored then stored[name] else []
  }

  /**
   * The dictionary that adding the headers one by one to an empty client
   * builds, for names that are distinct: each header with at least one
   * value, under its name.
   */
  function HeaderMap(headers: seq<Header>): map<string, seq<string>> {
    if headers == [] then map[]
    else
      var last := headers[|headers| - 1];
      Store(HeaderMap(headers[..|headers| - 1]), last.name, last.values)
  }

  /** The dictionary's keys are the names of the headers that carry values. */
  lemma {:induction false} HeaderMapKeys(headers: seq<Header>)
    ensures forall k :: k in HeaderMap(headers) <==>
      exists i :: 0 <= i < |headers| && headers[i].name == k && headers[i].values != []
    decreases |headers|
  {
    if headers != [] {
      var n := |headers| - 1;
      var init, last := headers[..n], headers[n];
      HeaderMapKeys(init);
      forall k
        ensures k in HeaderMap(headers) <==>
          exists i :: 0 <= i < |headers| && headers[i].name == k && headers[i].values != []
      {
        if exists i :: 0 <= i < |headers| && headers[i].name == k && headers[i].values != [] {
          var i :| 0 <= i < |headers| && headers[i].name == k && headers[i].values != [];
          if i < n {
            assert init[i].name == k && init[i].values != [];
          }
        }
        if k in HeaderMap(init) {
          var i :| 0 <= i < n && init[i].name == k && init[i].values != [];
          assert headers[i] == init[i];
        }
      }
    }
  }

  /** With distinct names, each header that carries values is in the dictionary with all of them. */
  lemma {:induction false} HeaderMapValues(headers: seq<Header>)
    requires UniqueNames(headers)
    ensures forall i :: 0 <= i < |headers| && headers[i].values != [] ==>
      headers[i].name in HeaderMap(headers) && HeaderMap(headers)[headers[i].name] == headers[i].values
    decreases |headers|
  {
    if headers != [] {
      var n := |headers| - 1;
      var init, last := headers[..n], headers[n];
      assert forall i :: 0 <= i < n ==> init[i] == headers[i];
      HeaderMapValues(init);
      assert Held(HeaderMap(init), last.name) + last.values == last.values by {
        HeaderMapKeys(init);
      }
    }
  }

  /** A header with a new name is stored after the earlier ones, as Add stores it. */
  lemma HeaderMapAppend(headers: seq<Header>, h: Header)
    requires forall j :: 0 <= j < |headers| ==> headers[j].name != h.name
    ensures h.name !in HeaderMap(headers)
    ensures HeaderMap(headers + [h]) == Store(HeaderMap(headers), h.name, h.values)
  {
    HeaderMapKeys(headers);
    var all := headers + [h];
    assert all[..|headers|] == headers && all[|headers|] == h;
  }

  /**
   * With distinct names, the dictionary has exactly the inbound names that
   * carry values as keys, each with all of its values.
   */
  lemma HeaderMapExact(headers: seq<Header>)
    requires UniqueNames(headers)
    ensures forall k :: k in HeaderMap(headers) <==>
      exists i :: 0 <= i < |headers| && headers[i].name == k && headers[i].values != []
    ensures forall i :: 0 <= i < |headers| && headers[i].values != [] ==>
      headers[i].name in HeaderMap(headers) && HeaderMap(headers)[headers[i].name] == headers[i].values
  {
    HeaderMapKeys(headers);
    HeaderMapValues(headers);
  }

  /** What Add throws for each header, on a client that holds none of their names. */
  function Refusals(headers: seq<Header>, nameRule: NameRule, valueRule: ValueRule): (rs: seq<Option<Exception>>)
    ensures |rs| == |headers|
  {
    seq(|headers|, i requires 0 <= i < |headers| => AddRefusal(nameRule, valueRule, headers[i].name, [], headers[i].values))
  }

  /** The refusal recorded for one header is what Add throws for it. */
  lemma RefusalAt(headers: seq<Header>, nameRule: NameRule, valueRule: ValueRule, i: nat)
    requires i < |headers|
    ensures Refusals(headers, nameRule, valueRule)[i] == AddRefusal(nameRule, valueRule, headers[i].name, [], headers[i].values)
  {
  }

  /** Index of the first refusal, if any. */
  function FirstRefused(refusals: seq<Option<Exception>>): (r: Option<nat>)
    ensures r.None? <==> forall i :: 0 <= i < |refusals| ==> refusals[i].None?
    ensures r.Some? ==> && r.value < |refusals|
                        && refusals[r.value].Some?
                        && forall j :: 0 <= j < r.value ==> refusals[j].None?
  {
    if refusals == [] then None
    else if refusals[0].Some? then Some(0)
    else
      var rest := FirstRefused(refusals[1..]);
      assert forall i :: 0 < i < |refusals| ==> refusals[i] == refusals[1..][i - 1];
      if rest.None? then None else Some(rest.value + 1)
  }

  /** The first refusal is the one after only acceptances. */
  lemma FirstRefusedAt(refusals: seq<Option<Exception>>, i: nat)
    requires i < |refusals| && refusals[i].Some?
    requires forall j :: 0 <= j < i ==> refusals[j].None?
    ensures FirstRefused(refusals) == Some(i)
  {
  }

  /**
   * One step of the copy: adding the next header to the dictionary of the
   * earlier ones stores its accepted values, throws its refusal, and, when
   * it is accepted, gives the dictionary of the headers up to it.
   */
  lemma CopyStep(headers: seq<Header>, i: nat, nameRule: NameRule, valueRule: ValueRule)
    requires UniqueNames(headers) && i < |headers|
    ensures var m, h := HeaderMap(headers[..i]), headers[i];
      var kept := AcceptedValues(nameRule, valueRule, h.name, [], h.values);
      && Held(m, h.name) == []
      && AddRefusal(nameRule, valueRule, h.name, [], h.values) == Refusals(headers, nameRule, valueRule)[i]
      && Store(m, h.name, kept) == HeaderMap(headers[..i] + [h.(values := kept)])
      && (Refusals(headers, nameRule, valueRule)[i].None? ==> Store(m, h.name, kept) == HeaderMap(headers[..i + 1]))
  {
    var m, h := HeaderMap(headers[..i]), headers[i];
    var kept := AcceptedValues(nameRule, valueRule, h.name, [], h.values);
    RefusalAt(headers, nameRule, valueRule, i);
    assert h.name !in m && Store(m, h.name, kept) == HeaderMap(headers[..i] + [h.(values := kept)]) by {
      assert forall j :: 0 <= j < i ==> headers[..i][j].name != h.name;
      HeaderMapAppend(headers[..i], h.(values := kept));
    }
    if Refusals(headers, nameRule, valueRule)[i].None? {
      AddKeepsAcceptedPrefix(nameRule, valueRule, h.name, [], h.values);
      assert h.(values := kept) == h;
      assert headers[..i + 1] == headers[..i] + [h];
    }
  }

  /** The auth-status text for the outcome of the call: the indented body, or the exception's message. */
  function AuthMeText(response: Result<JsonValue>, render: JsonValue -> string): string {
    match response
    case Ok(body) => render(body)
    case Err(e) => e.message
  }

  /** The shared HttpClient; only its DefaultRequestHeaders are modelled. */
  class HttpClient {
    var defaultRequestHeaders: map<string, seq<string>>

    /** The names and values HttpHeaders.Add refuses. */
    const nameRule: NameRule
    const valueRule: ValueRule

    constructor (nameRule: NameRule, valueRule: ValueRule)
      ensures this.nameRule == nameRule && this.valueRule == valueRule && defaultRequestHeaders == map[]
    {
      this.nameRule := nameRule;
      this.valueRule := valueRule;
      defaultRequestHeaders := map[];
    }

    /** DefaultRequestHeaders.Clear(). */
    method ClearDefaultHeaders()
      modifies this
      ensures defaultRequestHeaders == map[]
    {
      defaultRequestHeaders := map[];
    }

    /**
     * DefaultRequestHeaders.Add(name, values): a refused name changes
     * nothing; otherwise the values are added one at a time, and those
     * accepted before a refused one stay stored when it throws.
     */
    method AddDefaultHeader(name: string, values: seq<string>) returns (thrown: Option<Exception>)
      modifies this
      ensures var held := Held(old(defaultRequestHeaders), name);
        && thrown == AddRefusal(nameRule, valueRule, name, held, values)
        && defaultRequestHeaders ==
             Store(old(defaultRequestHeaders), name, AcceptedValues(nameRule, valueRule, name, held, values))
    {
      var held := Held(defaultRequestHeaders, name);
      thrown := AddRefusal(nameRule, valueRule, name, held, values);
      defaultRequestHeaders := Store(defaultRequestHeaders, name, AcceptedValues(nameRule, valueRule, name, held, values));
    }
  }

  class RequestService {
    const http: HttpClient

    constructor (http: HttpClient)
      ensures this.http == http
    {
      this.http := http;
    }

    /**
     * GetAuthMe: clears the client's default headers, copies the inbound
     * headers onto them one by one, then calls /.auth/me (`fetch`, given the
     * headers the call carries; it fails with an HttpRequestException on a
     * non-success status or an unreachable peer, or with the JsonException
     * of a body that is not JSON). Every exception becomes the returned text:
     * a refused header stops the copy with the client holding the headers
     * before it and the values of the refused header accepted before the
     * refusal; otherwise the client holds exactly the inbound headers and
     * the call's outcome is translated.
     */
    method GetAuthMe(
      headers: seq<Header>, fetch: map<string, seq<string>> -> Result<JsonValue>, render: JsonValue -> string)
      returns (authMe: string)
      requires DistinctNames(headers)
      modifies http
      ensures match FirstRefused(Refusals(headers, http.nameRule, http.valueRule))
        case None =>
          && http.defaultRequestHeaders == HeaderMap(headers)
          && authMe == AuthMeText(fetch(HeaderMap(headers)), render)
        case Some(i) =>
          var refused := headers[i];
          && http.defaultRequestHeaders == HeaderMap(headers[..i] + [refused.(values :=
               AcceptedValues(http.nameRule, http.valueRule, refused.name, [], refused.values))])
          && authMe == AddRefusal(http.nameRule, http.valueRule, refused.name, [], refused.values).value.message
    {
      DistinctNamesUnique(headers);
      var nameRule, valueRule := http.nameRule, http.valueRule;
      ghost var refusals := Refusals(headers, nameRule, valueRule);
      http.ClearDefaultHeaders();
      for i := 0 to |headers|
        invariant http.defaultRequestHeaders == HeaderMap(headers[..i])
        invariant forall j :: 0 <= j < i ==> refusals[j].None?
      {
        CopyStep(headers, i, nameRule, valueRule);
        var thrown := http.AddDefaultHeader(headers[i].name, headers[i].values);
        if thrown.Some? {
          FirstRefusedAt(refusals, i);
          authMe := thrown.value.message;
          return;
        }
      }
      assert headers[..|headers|] == headers;
      authMe := AuthMeText(fetch(http.defaultRequestHeaders), render);
    }
  }
}
