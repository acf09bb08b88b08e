# Basic authentication extension and Google Analytics log filter

This project is a Dafny model of two parts of the OpenTelemetry Collector contrib repository.

**The `basicauth` extension** (`extension/basicauthextension/extension.go`) implements HTTP Basic authentication as section 2 of RFC 7617 defines it.
- As a server, it loads an htpasswd credential store when it starts. It then checks each incoming `Authorization: Basic <token>` header against that store.
- As a client, it adds the header to outgoing HTTP requests and gRPC calls.
- The token is `user:password` in the standard base64 alphabet of section 4 of RFC 4648. The model proves that decoding an encoded credential gives it back, and that the server parses what a client sends into that client's user name and password.

**The Google Analytics exporter's filter** (`exporter/googleanalyticsexporter/exporter.go`) turns OpenTelemetry log records into Measurement Protocol events.
- A record becomes an event only when it is tagged as one.
- The batch traversal walks resources, then scopes, then records, and counts the records it drops.

The model has four modules:
- `Wrappers`: `Option` and `Result`.
- `Base64`: Go's `base64.StdEncoding`, both `EncodeToString` and the lenient `DecodeString`.
  - Decoding skips line breaks.
  - It requires padding.
  - It ignores the unused low bits of the last quantum.
  - It is characterised by the `WellFormed` predicate, and proved to invert encoding.
- `BasicAuth`: the extension.
  - Go strings are byte sequences (`Bytes`).
  - The htpasswd check is an uninterpreted `MatchFunc`.
  - The extension object is a class whose `ServerStart` writes its `matchFunc` field.
  - `GetAuthHeader` scans the header map in a loop, picking keys in an unspecified order.
- `GoogleAnalytics`: the record filter.
  - pdata values are the datatype `Value = Str | Map | Other`.
  - `LogsToGALogs` is the triple-nested loop, proved against the functions `Events` and `Dropped` of the flattened record sequence.

## Model

| member | source | states |
|---|---|---|
| Base64.DecodeEncode | extension/basicauthextension/extension.go:161 | decoding the standard base64 encoding of any byte string gives that byte string back |
| Base64.Decode | extension/basicauthextension/extension.go:161-164 | decoding succeeds exactly when, with line breaks removed, the length is a multiple of 4, everything before the last quantum is an alphabet digit, and the last quantum is four digits, three digits and `=`, or two digits and `==` |
| Base64.DecodeQuantaAccepts | extension/basicauthextension/extension.go:161-164 | the quantum-by-quantum decoder succeeds exactly on well-formed input |
| Base64.Encode | extension/basicauthextension/extension.go:242 | the encoding of n bytes has 4·⌈n/3⌉ characters |
| Base64.EncodeAlphabet | extension/basicauthextension/extension.go:242 | every character of an encoding is an alphabet digit or the padding `=` |
| Base64.StripNewlines | extension/basicauthextension/extension.go:161 | the result holds no CR or LF, holds every other character of the input and nothing else, and is never longer than the input |
| Base64.StripNewlinesAppend | extension/basicauthextension/extension.go:161 | stripping a concatenation strips each part and concatenates the results, so the kept characters stay in order and keep their multiplicity |
| Base64.StripNewlinesOne | extension/basicauthextension/extension.go:161 | a single CR or LF is dropped and any other single character is kept |
| Base64.SextetDigit | extension/basicauthextension/extension.go:161 | decoding an alphabet digit to its 6-bit value and encoding it again gives the digit back |
| Base64.DigitSextet | extension/basicauthextension/extension.go:242 | each 6-bit value encodes to a digit that decodes to that value |
| Base64.BlockRoundTrip | extension/basicauthextension/extension.go:161 | a full 3-byte group survives encoding and decoding |
| BasicAuth.IndexByte | extension/basicauthextension/extension.go:167 | the result is -1 exactly when the byte is absent, and otherwise it is the position of the byte's first occurrence |
| BasicAuth.ParseBasicAuth | extension/basicauthextension/extension.go:154-177 | a failure is a scheme error or a format error; the scheme error occurs exactly when the value is shorter than 6 bytes or does not start with "Basic " in any letter case; the format error occurs exactly when the token does not decode or its decoded text has no colon; on success `raw` is the token after the prefix, the user name has no colon, and user name, colon and password make up the decoded text |
| BasicAuth.ParseRoundTrip | extension/basicauthextension/extension.go:167-176 | for a user name without a colon and any password, parsing "Basic " + base64(user ":" password) gives back that user name, password and token |
| BasicAuth.SplitAtFirstColon | extension/basicauthextension/extension.go:167-174 | "user:password" determines the user name and password when the user name has no colon, however many colons the password holds |
| BasicAuth.ColonPosition | extension/basicauthextension/extension.go:167 | in "user:password" the first colon is the one after the user name when the user name has none |
| BasicAuth.MissingColonRejected | extension/basicauthextension/extension.go:160-170 | a well-encoded token whose decoded text has no colon is a format error |
| BasicAuth.SchemeErrorExamples | extension/basicauthextension/extension.go:155-158 | the empty value and "Bearer xyz" are scheme errors |
| BasicAuth.ClientHeaderExample | extension/basicauthextension/extension.go:242-245 | user "svc" with password "p@ss" gives the header value "Basic c3ZjOnBAc3M=" |
| BasicAuth.AuthData.GetAttribute | extension/basicauthextension/extension.go:187-196 | a name has a value exactly when `GetAttributeNames` lists it; "username" gives the user name and "raw" the token |
| BasicAuth.AuthData.GetAttributeNames | extension/basicauthextension/extension.go:198-200 | exactly the two names "username" and "raw", each once |
| BasicAuth.AttributesHidePassword | extension/basicauthextension/extension.go:187-200 | "username" gives the user name and "raw" the token; a name has a value exactly when it is one of the two listed names, so the password is never offered |
| BasicAuth.GetAuthHeader | extension/basicauthextension/extension.go:125-151 | "Authorization" wins over "authorization"; only when neither key is present is some key equal to "authorization" ignoring case chosen; the result is the first value of the chosen list, and "" when that list is empty or no key matches |
| BasicAuth.AnyCaseKeyFound | extension/basicauthextension/extension.go:131-150 | when the header's only key is "authorization" in any letter case, the lookup results are exactly that key's first value |
| BasicAuth.AuthenticateValue | extension/basicauthextension/extension.go:105-123 | the no-auth error occurs exactly for an empty header value; a parse error is returned unchanged; the invalid-credentials error occurs exactly when parsing succeeds and the store rejects the pair; success occurs exactly when the value is non-empty, parses, and the store accepts the parsed pair, and it then carries the parsed identity |
| BasicAuth.BasicAuthExtension.Authenticate | extension/basicauthextension/extension.go:105-123 | the result is the decision above, applied to a value the header lookup may return |
| BasicAuth.AuthenticateClientValue | extension/basicauthextension/extension.go:105-123 | a header built by a client authenticates exactly when the store accepts its pair, and then yields that user name, password and token |
| BasicAuth.PerRPCAuth.GetRequestMetadata | extension/basicauthextension/extension.go:207-210 | every call returns the map fixed when the credentials were built |
| BasicAuth.PerRPCAuth.RequireTransportSecurity | extension/basicauthextension/extension.go:212-215 | transport security is always required |
| BasicAuth.BasicAuthExtension.PerRPCCredentials | extension/basicauthextension/extension.go:238-248 | the format error occurs exactly when the user name holds a colon; otherwise every call's metadata is the single entry "authorization" ↦ "Basic " + base64(user ":" password), which parses back to the configured pair |
| BasicAuth.BasicAuthExtension.RoundTripper | extension/basicauthextension/extension.go:228-236 | the format error occurs exactly when the user name holds a colon; otherwise the decorator carries the configured settings |
| BasicAuth.BasicAuthRoundTripper.RoundTrip | extension/basicauthextension/extension.go:222-226 | the forwarded request is the original, except that its "Authorization" header holds exactly the Basic value of the configured pair; all other headers, the method, the URL and the body are unchanged |
| BasicAuth.RoundTripHeaderFound | extension/basicauthextension/extension.go:222-226 | the server's header lookup finds exactly the value the decorator set |
| BasicAuth.PerRPCAuthenticates | extension/basicauthextension/extension.go:238-248 | a server receiving the client's per-call metadata accepts the configured client exactly when the store accepts its pair |
| BasicAuth.RoundTripAuthenticates | extension/basicauthextension/extension.go:228-236 | a server receiving a request sent through the decorator accepts the configured client exactly when the store accepts its pair |
| BasicAuth.BasicAuthExtension.ServerStart | extension/basicauthextension/extension.go:76-103 | a file that cannot be opened is an open error; otherwise the store is loaded from file content + "\n" + inline content, or from the inline content alone when no file is set; a parse failure is a read error and leaves the check unset; on success the loaded check is installed |
| BasicAuth.InlineReadLast | extension/basicauthextension/extension.go:79-93 | the inline content always ends the credential stream; with a file, the stream starts with the file's content followed by a line break |
| BasicAuth.ConcatStream | extension/basicauthextension/extension.go:77-93 | the readers assembled in that order concatenate to the credential stream |
| BasicAuth.NewClientAuthExtension | extension/basicauthextension/extension.go:47-59 | construction fails exactly when client settings are absent or the user name is empty, and then with the no-credential-source error; otherwise the new object holds the client settings and no store |
| BasicAuth.NewServerAuthExtension | extension/basicauthextension/extension.go:61-74 | construction fails exactly when htpasswd settings are absent or both their file and inline fields are empty, and then with the no-credential-source error; otherwise the new object holds those settings and has not loaded a store |
| GoogleAnalytics.LogToGAMPEvent | exporter/googleanalyticsexporter/exporter.go:71-101 | the error is always nil; an event exists exactly when the valid flag is set; the flag is set exactly when "log_type" is the string "ga_event" and "ga_params" is a map holding "ga_event_name"; the event is then named by that entry's string form, and its parameters are the whole "ga_params" map, including "ga_event_name" |
| GoogleAnalytics.NonStringLogTypeRejected | exporter/googleanalyticsexporter/exporter.go:79-81 | a "log_type" that is not a string never makes an event |
| GoogleAnalytics.LogsToGALogs | exporter/googleanalyticsexporter/exporter.go:103-136 | `out` and `dropped` are what converting every record, in resource, then scope, then record order, appends and counts |
| GoogleAnalytics.EventsCoverEveryRecord | exporter/googleanalyticsexporter/exporter.go:122-131 | `out` has one entry per record, in traversal order: the record's event when it is valid, nil otherwise |
| GoogleAnalytics.DroppedAreNilEvents | exporter/googleanalyticsexporter/exporter.go:122-131 | `dropped` equals the number of nil entries of `out`, which is the number of invalid records, and never exceeds the record count |
| GoogleAnalytics.EmptyBatch | exporter/googleanalyticsexporter/exporter.go:104-107 | a batch without resource logs gives no events and nothing dropped |

Two behaviours of the code worth stating outright:
- The HTTP decorator refuses a user name that contains a colon once, when `roundTripper` builds it. It does not check on each request.
- The identity attached on success (`authData`) holds the password. Only its attribute view leaves the password out.

## Left out

- htpasswd parsing and hash verification (`htpasswd.NewFromReader`, `htp.Match`) belong to a foreign library. They are the `load` parameter of `ServerStart` and the `MatchFunc` it installs.
- File I/O in `serverStart` (`os.Open`, `io.MultiReader`, `Close`) is replaced by the `fileContent` parameter: the file's whole content, or `None` when it cannot be opened. A read error in the middle of the file is not modelled.
- `BasicAuth.BasicAuthExtension.ServerStart`: the error texts wrap the underlying error; they are modelled as the two constants `OpenHtpasswdFile` and `ReadHtpasswdContent`.
- For the HTTP decorator:
  - `http.Request.Clone` is modelled as copying a value, so aliasing is not modelled;
  - the `base` transport and the response it returns are not modelled;
  - the model gives the request handed to the base transport.
- For the gRPC credentials:
  - the `credentials.PerRPCCredentials` interface plumbing is not modelled;
  - the always-nil error result of `GetRequestMetadata` is not modelled;
  - the ignored context and URI arguments are not modelled.
- Context plumbing (`client.FromContext`, `client.NewContext`) is not modelled. A successful `Authenticate` result stands for the context that carries that identity.
- `BasicAuth.EqualFold`: case folding is ASCII only. For the two comparisons the extension makes, against "Basic " and against "authorization", ASCII folding gives the same answer as Go's Unicode folding.
- `BasicAuth.BasicAuthExtension.Authenticate` requires a loaded store. In Go, calling it before a successful start dereferences a nil function, which is not a modelled outcome.
- `BasicAuth.BasicAuthExtension.ServerStart` requires htpasswd settings. In Go it is registered only on server extensions, which always have them.
- Go's distinction between a nil slice or map and an empty one is not modelled; both are the empty sequence or map.
- gRPC's delivery of per-call metadata is assumed rather than modelled. `MetadataHeader` takes it that the server sees the client's `map[string]string` as a header map with the same keys, each holding a one-element value list. `PerRPCAuthenticates` rests on that assumption.
- `GoogleAnalytics.Value.MapValue`: the model takes pdata's `Value.Map()` on a value that is not a map to be the empty map. pdata does not promise a usable empty map there, and a lookup in the map it returns may panic. So the model drops a record whose "ga_params" is not a map, where the Go code may instead crash at `log_params.Map().Get`.
- `GoogleAnalytics.Value.AsString`: the JSON text Go produces for a map value is not modelled (it gives ""). Strings and other values render as their text.
- `log_params.Map().AsRaw()` converts a pdata map to a plain Go map. The model keeps the same entries as `Value`s.
- `ConsumeLogs` is not part of this model. It does JSON marshalling, reads the clock and sends an HTTP POST with a status check, all of which is I/O.
- The exporter's `factory.go` is not part of this model. It is component registration.
- zap logging, including the debug message on a conversion error (which cannot occur), is not modelled.
- Concurrent calls are not modelled. Neither component keeps shared per-call state.
