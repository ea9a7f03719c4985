# EasyAuth client principal decoder and container request service, in Dafny

This project models the one piece of real logic in the EasyAuth sample.

**Principal decoder.** A hosting platform puts an `X-MS-CLIENT-PRINCIPAL` header on each
authenticated request. The header is base 64 text. It decodes to a JSON object with the
fields `auth_typ`, `name_typ`, `role_typ` and `claims`, and each claim is a `typ`/`val` pair.
`MsClientPrincipal.ParseMsClientPrincipal` decodes the header into a record and rejects a
JSON `null`. `ParseClaimsPrincipal` turns the record into a claims principal that holds
one identity.

**Container request service.** This is the deployment that reads the live request itself.
`GetClientPrincipal` returns a fixed sentinel when the header is missing or blank, and
otherwise decodes the header and serializes the result. `GetAuthMe` clears the shared
`HttpClient`'s default headers and copies the inbound headers onto it one at a time. It then
calls `/.auth/me` and turns any exception into its message.

Modules, one per file:

- `Wrappers` (`wrappers.dfy`): `Option`, where `None` stands for a C# `null`.
- `Exceptions` (`exceptions.dfy`): the .NET exceptions involved, with their messages, and `Result`, meaning "returns a value or throws".
- `Text` (`text.dfy`): ordinal case-insensitive comparison (ASCII letters), `char.IsWhiteSpace`, `string.IsNullOrWhiteSpace` and `string.Join`.
- `Seqs` (`seqs.dfy`): two facts about sequences of any element type, used by the proofs about bytes and header values.
- `Base64` (`base64.dfy`): `Convert.FromBase64String` and `Convert.ToBase64String`, written out concretely over the standard alphabet of section 4 of RFC 4648.
- `Json` (`json.dfy`): a parsed JSON document.
- `ClientPrincipal` (`client_principal.dfy`): `MsClientPrincipal.cs` and `MsClientPrincipalClaim.cs`.
- `ContainerRequestService` (`request_service.dfy`): the ContainerApp `RequestService.cs`. It has `HttpClient` as a class with a `map` field, and `RequestService.GetAuthMe` as a method whose loop is proved against `HeaderMap`.

Two library steps enter the model only as parameters:

- `parse`: System.Text.Json reading bytes into a document.
- `render`: writing a document back as indented text.

The model is concrete about how a document is bound to the record:

- members are read in document order;
- names are compared ignoring case;
- the last of several members with the same name wins;
- unknown members are skipped;
- a value of the wrong JSON kind throws a `JsonException`.

The outbound `/.auth/me` call is also a parameter, `fetch`. It receives the headers the call
carries and returns either a document or an exception.

In these cases the model follows the code:

- Empty input is not a base 64 error. `Convert.FromBase64String("")` returns no bytes. Any failure then comes from the JSON reader on empty input, so the outcome is whatever `parse([])` gives.
- A claim with a null `typ` or `val`, or a null entry in `claims`, is not carried through. Building the `Claim` throws (`ArgumentNullException`, or `NullReferenceException` for a null entry). `ParseClaimsPrincipal` then fails with that exception.
- In the auth-status path, the header copy itself can throw: `HttpHeaders.Add` refuses some names and values. The exception's message is returned. The shared client is left holding the inbound headers that came before the refused one, and also the values of the refused header that `Add` accepted before the refused value.
- A principal header sent with several values becomes one string: the values that are not empty, joined by `,`. Empty values are skipped, so a header of only empty values gives the sentinel and a header with one encoding among empty values is decoded. With two or more values that are not empty, the string is never valid base 64, so the request fails with a `FormatException`.

## Model

| member | source | states |
|---|---|---|
| Base64.StripWhiteSpaceAppend | src/EasyAuth.Components/Models/MsClientPrincipal.cs:25 | skipping space, tab, CR and LF works character by character: the result for a concatenation is the concatenation of the results, so the other characters keep their order |
| Base64.DecodeSucceedsIff | src/EasyAuth.Components/Models/MsClientPrincipal.cs:25 | Base 64 decoding succeeds exactly on input that, after space, tab, CR and LF are removed, is whole four-character quanta of alphabet characters, with at most the last two characters being `=` padding |
| Base64.DecodeEncode | src/EasyAuth.Components/Models/MsClientPrincipal.cs:25 | every byte sequence survives encoding then decoding unchanged |
| Base64.ForeignCharRejected | src/EasyAuth.Components/Models/MsClientPrincipal.cs:25 | one character outside the alphabet, padding and the skipped whitespace makes decoding fail |
| Base64.Encode | src/EasyAuth.Components/Models/MsClientPrincipal.cs:25 | the encoding has 4 characters per started group of 3 bytes, all from the alphabet or padding |
| ClientPrincipal.LastMember | src/EasyAuth.Components/Models/MsClientPrincipal.cs:9 | finds the value of the last member whose name equals the key ignoring case, and nothing exactly when no member matches |
| ClientPrincipal.BindMembersSpec | src/EasyAuth.Components/Models/MsClientPrincipal.cs:9-21 | binding an object succeeds exactly when every `auth_typ`/`name_typ`/`role_typ`/`claims` member (any case) holds a value of the right kind; then each field is its last matching member's value, and an absent one keeps its prior value |
| ClientPrincipal.BindClaimMembersSpec | src/EasyAuth.Components/Models/MsClientPrincipalClaim.cs:5-12 | the same for a claim object and its `typ`/`val` members |
| ClientPrincipal.DeserializeSpec | src/EasyAuth.Components/Models/MsClientPrincipal.cs:9-27 | the document `null`, and only it, deserializes to no record; deserializing succeeds exactly on `null` and readable objects; an object gives the record of its last matching members, with missing properties null |
| ClientPrincipal.BindMembersIgnoresCase | src/EasyAuth.Components/Models/MsClientPrincipal.cs:9 | members that differ only in the case of their names bind to the same record, or fail with the same exception |
| ClientPrincipal.DeserializeIgnoresCase | src/EasyAuth.Components/Models/MsClientPrincipal.cs:9 | the same at document level |
| ClientPrincipal.DeserializeToJson | src/EasyAuth.Components/Models/MsClientPrincipal.cs:11-21 | serializing a principal under its attribute names and deserializing the document gives the principal back |
| ClientPrincipal.ParseMsClientPrincipal | src/EasyAuth.Components/Models/MsClientPrincipal.cs:23-34 | input that is not base 64 throws the FormatException; a parser failure propagates; a `null` document throws InvalidOperationException "Failed to parse client principal"; it succeeds exactly on readable objects, giving the record of their last matching members |
| ClientPrincipal.HeaderRoundTrip | src/EasyAuth.Components/Models/MsClientPrincipal.cs:23-34 | the base 64 encoding of bytes that parse to a principal's serialized form decodes to that principal |
| ClientPrincipal.MakeClaims | src/EasyAuth.Components/Models/MsClientPrincipal.cs:42 | one claim per entry, in order, type and value copied verbatim (duplicates kept); it fails exactly when some entry, a null one included, lacks a type or value, and then with the first such entry's exception |
| ClientPrincipal.ParseClaimsPrincipal | src/EasyAuth.Components/Models/MsClientPrincipal.cs:36-46 | fails with ParseMsClientPrincipal's exception whenever that fails, and otherwise exactly when an entry is incomplete; on success wraps exactly one identity whose auth type is the decoded one, whose name and role claim types are the decoded ones with null or empty standing for the default, and whose claims are the entries in order |
| ClientPrincipal.NoEntriesNoClaims | src/EasyAuth.Components/Models/MsClientPrincipal.cs:40 | an absent or empty `claims` list gives an identity with no claims |
| ContainerRequestService.HeaderValues | src/EasyAuth.ContainerApp/Services/RequestService.cs:80 | the header lookup gives the values of the first header matching ignoring case, and no values when none matches |
| ContainerRequestService.GetClientPrincipal | src/EasyAuth.ContainerApp/Services/RequestService.cs:74-90 | a missing or blank header gives "No client principal found"; any failure comes from decoding the non-blank header value unchanged, with the same exception; a success is the serialization of the decoded principal. The header value is the one value as is, or the values that are not empty joined with `,` |
| ContainerRequestService.NonEmptyValuesMembers | src/EasyAuth.ContainerApp/Services/RequestService.cs:80-81 | the values the string conversion joins are exactly the header's values that are not empty, and there are none exactly when every value is empty |
| ContainerRequestService.NonEmptyValuesAppend | src/EasyAuth.ContainerApp/Services/RequestService.cs:80-81 | the filtering works value by value: the result for a concatenation is the concatenation of the results, so the kept values stay in order with repeats |
| ContainerRequestService.EmptyValuesGiveSentinel | src/EasyAuth.ContainerApp/Services/RequestService.cs:80-84 | a header whose values are all empty, however many, gives the sentinel |
| ContainerRequestService.MissingHeaderGivesSentinel | src/EasyAuth.ContainerApp/Services/RequestService.cs:80-84 | with no `X-MS-CLIENT-PRINCIPAL` header in any case the result is the sentinel |
| ContainerRequestService.BlankHeaderNotDecoded | src/EasyAuth.ContainerApp/Services/RequestService.cs:81-84 | for a blank header the result does not depend on the decoder or the writer: nothing is decoded |
| ContainerRequestService.MalformedHeaderThrows | src/EasyAuth.ContainerApp/Services/RequestService.cs:86 | a non-blank header that is not base 64 throws the FormatException instead of giving the sentinel |
| ContainerRequestService.MultiValuedHeaderThrows | src/EasyAuth.ContainerApp/Services/RequestService.cs:80-86 | a principal header with two or more values that are not empty always throws the FormatException |
| ContainerRequestService.EncodedPrincipalServed | src/EasyAuth.ContainerApp/Services/RequestService.cs:80-89 | a header whose one value that is not empty is the encoding of a principal's serialized form is answered with that principal serialized, whatever empty values surround it |
| ContainerRequestService.HeaderMapExact | src/EasyAuth.ContainerApp/Services/RequestService.cs:59-63 | with distinct names, the forwarded dictionary has exactly the inbound names that carry values as keys, each with all of its values |
| ContainerRequestService.AcceptedCountSpec | src/EasyAuth.ContainerApp/Services/RequestService.cs:62 | `Add` accepts the values in order: every value before the count is accepted, given the values before it, and the value at the count, if any, is refused |
| ContainerRequestService.AddKeepsAcceptedPrefix | src/EasyAuth.ContainerApp/Services/RequestService.cs:62 | the values `Add` keeps are a prefix of those given; it throws nothing exactly when the name is accepted and all values are kept; otherwise, with the name accepted, it throws the refusal of the first value not kept |
| ContainerRequestService.FirstRefused | src/EasyAuth.ContainerApp/Services/RequestService.cs:60-63 | finds the first refused header in the sequence of refusals, with every earlier one accepted, and nothing exactly when all are accepted |
| ContainerRequestService.HttpClient.ClearDefaultHeaders | src/EasyAuth.ContainerApp/Services/RequestService.cs:59 | the default headers are empty afterwards |
| ContainerRequestService.HttpClient.AddDefaultHeader | src/EasyAuth.ContainerApp/Services/RequestService.cs:62 | a refused name throws and changes nothing; otherwise the values accepted before the first refused one are appended under the name, a new header with none stays absent, and the first refused value's exception is thrown |
| ContainerRequestService.RequestService.GetAuthMe | src/EasyAuth.ContainerApp/Services/RequestService.cs:51-72 | never throws; when every header is accepted the client then holds exactly the inbound headers, nothing left from before, and the result is the indented response body or the call's exception message; when a header is refused the result is that exception's message and the client holds the headers before it plus the values of the refused header accepted before the refusal |

## Left out

- Text parsing and indented writing of JSON: System.Text.Json is a library. Both are the parameters `parse` and `render`. The reader's leniency options, depth limits and UTF-8 validation are part of `parse`.
- Whole exception messages from System.Text.Json: a conversion error carries only the target type. The model leaves out the JSON path, line and byte position.
- Non-ASCII case equivalences of ordinal case-insensitive comparison: only ASCII letters are folded.
- Base64.Decode ignores the unused low bits of a padded final quantum. This follows the lenient .NET decoder, so decoding then encoding does not give back every accepted string.
- ClientPrincipal.ClaimsIdentity: a null or empty name or role claim type becomes None, standing for the default. The framework's default claim types themselves, and the claim fields the identity fills in (subject, issuer, value type), are not modelled.
- `GetHeaders`, `GetQueries`, `GetCookies` and `GetPayload`: they serialize framework collections or read the body stream to its end, with no logic of their own.
- `accessor.HttpContext` being null: the model takes the current request's headers as given.
- Which header names and values `HttpHeaders.Add` refuses: this is framework validation. The model takes it as the `nameRule` and `valueRule` the client is built with. A value's refusal may depend on the values the header already holds, which covers headers that take one value only.
- The client's dictionary stores the values as given, not the parsed forms `HttpHeaders` keeps and sends.
- Failures of the `/.auth/me` call (unreachable peer, non-success status, body that is not JSON, timeout): these are the `fetch` outcome. The model does not break them down.
- Asynchrony, and concurrent requests sharing one `HttpClient`: the model covers one call at a time. The clear-then-copy code gives no isolation between overlapping requests.
- DefaultRequestHeaders compares names ignoring case, but the model's dictionary keys are exact strings. Inbound names are distinct ignoring case, so this changes nothing for `GetAuthMe`.
- The WebApp and SwaApp request services are not part of this model. In the WebApp, `GetHeaders`, `GetQueries`, `GetCookies` and `GetPayload` serialize or read the live request with no logic of their own, and `GetAuthMe` is one outbound call. In the SwaApp, each method is one outbound call. In both, `GetAuthMe` collapses every failure to "Not authenticated".
- The FunctionApp trigger is not part of this model. It repeats the blank-header guard and then passes untyped JSON through the library.
- `Program.cs` of both apps (hosting, dependency wiring, base address) is not part of this model.
- `EasyAuthAuthenticationOptions` is not part of this model: it has no behaviour.
