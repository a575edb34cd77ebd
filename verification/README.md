# HTTP message signatures, from typed data to bytes and back

This project models the deterministic middle of an implementation of RFC 9421 (HTTP Message
Signatures): the printers and parsers of component identifiers, signature parameters and field
values; the signature base that is signed; the derivation of component values from requests and
responses; the pairing of `signature-input` with `signature`; the signing and verifying of messages
with any number of signatures; and the `content-digest` field (RFC 9530).

The verifier never sees the signer's bytes.  It joins header values, parses dictionaries and
parameters, extracts the components again and prints the base again.  That this arrives at the same
bytes is a composition of round trips, of a prefix-free code, of framing and of a counting argument,
and the modules follow that composition:

| module | content |
|---|---|
| `Text`, `OrderedMap`, `Wrappers`, `Utf8`, `Base64`, `Percent` | the library operations that the crates call |
| `StructuredFields`, `StructuredFieldsRoundTrip`, `StructuredFieldsJoin` | RFC 9651 values: parser, serialiser, both round trips, and what joining values with `", "` means |
| `Grammar`, `GrammarSound`, `GrammarComplete`, `Canonical` | the grammar as a relation between text and values; the parser accepts exactly that; the serialised form written out |
| `ComponentId`, `Uniqueness` | identifiers, their prefix-free printed form, order-free equality and hashing |
| `Identifiers` | what text and lines are read as which identifier, and every refusal |
| `SignatureParams` | parameters, their printed form, normalisation, and the mutable object |
| `ParamsExactly` | the printed parameters written out, and what entries and text are read as |
| `Escaping` | exactly which identifiers and parameters survive printing without escapes |
| `Decoding` | exactly which component lines and signature bases can be read back |
| `Component`, `FieldParameters` | values of fields and derived components; the order of `sf` and `key` |
| `FieldValues` | the values of `sf` and `key`, written out |
| `Merging` | when merging the lines of a field keeps a component's value |
| `SignedText` | the lines that are signed, written out |
| `SignatureBase`, `Binding` | the signed text, its injectivity and decoding, and what the bytes say about a message |
| `SignatureHeaders`, `SignatureFields` | pairing, and how a message's signatures grow |
| `Parity` | values joined to text that does not parse never repair it |
| `Readability` | exactly when the signatures of a message can be read, before and after signing |
| `Reading`, `SignedFields` | the two fields under their names: how they are read, what is written, every failure |
| `Extraction` | what each component of a request or response shows |
| `VerifyingExactly` | what each key is answered, and expiry |
| `Message`, `Signing`, `OwnFields`, `Verifying`, `SigningRuns` | extraction, signing, verifying, whole runs |
| `Soundness` | what a successful verification says about the message |
| `Necessity` | exactly which requests are read back after signing |
| `ContentDigest`, `BodyIntegrity` | setting and checking body digests, and what a signature over the digest says about the body |

Conventions.

- Errors are the constructors of `Error`, one per error variant.  A call that panics returns
  `Err(Panicked)`: an unknown `@` name, or a negative timestamp.  No modelled code swallows an error
  that a panic could take the place of, so this keeps the order of effects.  `Err(Unreachable)`
  stands for an `unreachable!` arm, and is proved never to be returned.
- `created` and `expires` are natural numbers.  The 64-bit limit appears where two of them are added.
- Structured-field integers have at most 15 digits (section 4.2.4 of RFC 9651), so printing and
  parsing agree on timestamps up to 999999999999999; this is part of `WellFormedParams`.
- The printers put strings between quotes without escaping them.  `PlainText` names the strings for
  which that is faithful, and `IdReadsBackExactly` and `ParamsReadBackExactly` prove that nothing else
  is read back.  `UnescapedKeyid` and `ReceivedUnescaped` give the parameters that are confused.
- Headers are a map from lower-case names to values in order.  Looking up a name ignores its case.
- Keys are functions.  A signing key signs once for each request, so the function also stands for the
  outcome of a randomised algorithm.  Hash functions, the hash of a hash table, the clock and random
  bytes are parameters.
- Automatic induction is off in every lemma (`{:induction false}`), also where no induction is meant:
  for datatypes with one constructor the induction hypothesis that Dafny 4.11 adds can contradict the
  other facts, and each proof should show its own steps.

Where the code and the documents differ, the model follows the code.  A `@query-param` whose name
does not occur has an empty value instead of being an error (section 2.2.8 of RFC 9421), unless there
is nothing between the ampersands at all (`AbsentName`, `AbsentNameExample`).  A missing field gives
the same line as an empty one unless `sf` comes first (`MissingIsEmpty`, `MissingLooksEmpty`; section
2.1 asks for an error).  A blank value makes a leading `sf` fail, and is the one case in which the
order of `sf` and `key` shows (`ParamsMean`, `SameSetSameValue`, `OrdersDiffer`).

Signing does not look at the signature fields that are already there.  It succeeds on messages whose
fields do not parse, are blank, or parse but do not pair up.  The result can be read only in the last
case, and only if the call writes every name that has no partner: a blank field stays in front of a
comma, and a field that does not parse may leave a string open, which what is written closes and
opens again.  `ReadableExactly`, `SignThenVerify` and `RunReadyExactly` state this for every message as
a condition before signing (`Receptive`); `UnspelledFieldBlocks`, `BlankFieldsBlock`,
`LoneInputExactly` and `UnpairedExactly` are the families of messages that fail.

Names and parameters are not checked either.  On a message whose fields are absent or spell members, a
successful call under fresh, distinct names is read back in full exactly when every name is a
structured-field key, all parameters are well formed, and everything without a partner is overwritten
(`SignedReadsExactly`).

## Model

| member | source | states |
|---|---|---|
| Base64.DecodeEncode | httpsig/src/signature_base.rs:130-135 | Decoding the base64 of any byte string gives the byte string back. |
| Base64.EncodeExactly | httpsig/src/signature_base.rs:130-135 | Every character of the encoded text: the symbol for the next six bits as long as there are bits left, then padding to a multiple of four. |
| Base64.DecodeExactly | httpsig/src/signature_base.rs:36-38 | Text decodes exactly if it is symbols, in a number that can occur, with all, some or none of their padding; the result is their bits, whole bytes only. |
| Utf8.DecodeExactly | httpsig/src/signature_params.rs:215-222 | Decoding bytes gives a text exactly when they are the UTF-8 bytes of that text, as in display strings. |
| Utf8.EncodedChar | httpsig/src/signature_base.rs:176-179 | Each character's one to four bytes, by lead byte and six bits for each byte behind it. |
| StructuredFieldsRoundTrip.ListRoundTrip | httpsig/src/signature_params.rs:215-222 | Parsing the serialisation of any valid non-empty list gives back the list, with all item types, inner lists and parameters. |
| StructuredFieldsRoundTrip.DictionaryRoundTrip | httpsig/src/signature_base.rs:33-38 | Parsing the serialisation of any valid non-empty dictionary gives back the dictionary, keys in order. |
| StructuredFieldsRoundTrip.ParsedDictionary | httpsig/src/signature_base.rs:33-38 | Whatever parses as a dictionary is valid (so it can be serialised and read back), and it is empty exactly for blank text. |
| GrammarComplete.ListExactly | httpsig/src/signature_params.rs:215-222 | The list parser yields a value for a text if and only if the grammar relates them. |
| GrammarComplete.DictionaryExactly | httpsig/src/signature_base.rs:33-38 | The dictionary parser yields a value for a text if and only if the grammar relates them, the last value of a repeated key counting in the place of the first. |
| GrammarComplete.ItemExactly | httpsig/src/message_component/component_id.rs:38-48 | The item parser yields a value for a text if and only if the grammar relates them. |
| Canonical.ListWritten | httpsig/src/message_component/component_param.rs:105-125 | A serialised list is its members with a comma and one space between two. |
| Canonical.DictionaryWritten | httpsig/src/message_component/component_param.rs:105-125 | A serialised dictionary is its members in order, a comma and one space between two, `true` without a value. |
| StructuredFieldsJoin.JoinIsMerge | httpsig-hyper/src/hyper_http.rs:754-765 | The `", "` join of two values that each hold a member parses as the first dictionary with the members of the second inserted after it. |
| StructuredFieldsJoin.JoinAllIsMerge | httpsig-hyper/src/hyper_http.rs:754-765 | For any number of values that each parse to a non-empty dictionary, parsing the join is merging the parses from left to right, later entries overwriting in place. |
| StructuredFieldsJoin.MembersBothWays | httpsig/src/message_component/component_param.rs:109-112 | Text that parses as a list parses as a dictionary exactly when every member is a bare key with parameters, and then member by member. |
| ComponentId.IdRoundTrip | httpsig/src/message_component/component_id.rs:25-80 | Parsing a printed well-formed identifier gives back the identifier, its parameters in their order. |
| ComponentId.ParsedId | httpsig/src/message_component/component_id.rs:36-80 | Everything the parser accepts, from quoted or bare text, is well formed as soon as its strings need no escaping. |
| Identifiers.BareAsQuoted | httpsig/src/message_component/component_id.rs:36-48 | Text without a quotation mark and without white space at its ends is read as if it stood between quotation marks. |
| Identifiers.FieldReads | httpsig/src/message_component/component_id.rs:36-55 | Any printable text without quotation mark, backslash or a space at its ends, and without `@` in front, is the field of that name, bare or quoted, semicolons included. |
| Identifiers.DerivedReads | httpsig/src/message_component/component_name.rs:76-93 | The ten derived names, as literals, are read as their ten identifiers. |
| Identifiers.UnknownPanics | httpsig/src/message_component/component_name.rs:76-93 | Any other such text with an `@` in front panics, bare or quoted. |
| Identifiers.SpacesIgnored | httpsig/src/message_component/component_id.rs:37-37 | White space around an identifier changes nothing. |
| Identifiers.QuotedExactly | httpsig/src/message_component/component_id.rs:45-79 | Text with a quotation mark is read as an item and converted: every refusal with its error and precedence, flags whatever their value, parameters in order. |
| ComponentId.PrefixFree | httpsig/src/message_component/component_id.rs:25-29 | If two printed identifiers, each followed by a colon and more text, agree, then identifiers and texts agree: the printer is injective and its image is a prefix-free code. |
| Identifiers.PrintedIds | httpsig/src/message_component/component_param.rs:27-37 | The printed form of every parameter behind any name. |
| Identifiers.PrintedMore | httpsig/src/message_component/component_param.rs:89-101 | Another parameter is printed behind the others. |
| ComponentId.AddReqLaws | httpsig/src/message_component/component_id.rs:20-22 | Adding `req` is idempotent, keeps identifiers well formed, and prints as `;req` at the end. |
| ComponentId.HttpMessageComponentId.AddReqParam | httpsig/src/message_component/component_id.rs:20-22 | The object's new value is the old one with `req` inserted; a well-formed identifier stays one and still reads back from its printed form. |
| Uniqueness.HashKeySound | httpsig/src/message_component/component_param.rs:67-77 | The sorted parameter texts that are hashed agree for two parameter sets exactly when the sets are equal, whatever their order. |
| Uniqueness.HasUniqueElements | httpsig/src/util.rs:2-9 | For any hash function, the hash-set loop answers true exactly when no two identifiers are equal up to parameter order. |
| SignatureParams.ParamsRoundTrip | httpsig/src/signature_params.rs:123-224 | Parsing printed well-formed parameters gives back the same value: all six parameters, the covered identifiers in order, and each identifier's parameters in order. |
| ParamsExactly.PrintedAs | httpsig/src/signature_params.rs:123-153 | The printed form, with the six keys as literals in their fixed order. |
| ParamsExactly.EntryExactly | httpsig/src/signature_params.rs:158-208 | What an inner list is read as: the first item that is no identifier decides the error, repeated identifiers are refused, a negative time panics, and every parameter is what a look-up gives. |
| ParamsExactly.TextExactly | httpsig/src/signature_params.rs:211-224 | Text is read as parameters only if it is a list of exactly one inner list; the errors of all other text. |
| SignatureParams.EscapedReadsBack | httpsig/src/signature_params.rs:155-224 | Serialised with escapes, parameters whose four texts are any printable strings are read back: only the printer stands in the way. |
| SignatureParams.ParamsNormalise | httpsig/src/signature_params.rs:158-224 | For any accepted text whose strings need no escaping, printing the parse is accepted again and gives the same value; printing after parsing is a normal form. |
| SignatureParams.PrintIdsSnoc | httpsig/src/signature_params.rs:125-131 | The fold that adds a space unless nothing was printed yet is a single-space join. |
| SignatureParams.QuotedReadsBack | httpsig/src/signature_params.rs:139-150 | Text put between quotes without escaping is read back exactly when it is printable and holds neither a quotation mark nor a backslash. |
| Escaping.IdReadsBackExactly | httpsig/src/message_component/component_id.rs:25-80 | For every identifier, parsing its printed form gives it back if and only if it is well formed. |
| Escaping.ParamsReadBackExactly | httpsig/src/signature_params.rs:123-224 | For all parameters, parsing the printed form gives them back if and only if no string needs escaping, times have at most 15 digits, the identifiers are ones the parser can produce and none is covered twice. |
| Escaping.MemberIsWellFormed | httpsig/src/signature_base.rs:122-124 | If a printed `signature-input` member, with any name and parameters, is read as the same name and parameters, then the name is a key and the parameters are well formed. |
| SignatureParams.UnescapedKeyid | httpsig/src/signature_params.rs:139-150 | For any parameters without a tag and all texts, a key id with a quotation mark prints like another key id and a tag. |
| SignatureParams.PrintParamsInjective | httpsig/src/signature_params.rs:123-153 | Well-formed parameters with the same printed form are equal. |
| SignatureParams.FromEntry | httpsig/src/signature_params.rs:155-208 | The loop that fills a mutable record computes the conversion that the round trips are about, with its errors. |
| SignatureParams.HttpSignatureParams.TryNew | httpsig/src/signature_params.rs:38-51 | Succeeds exactly when the identifiers are unique up to parameter order, and then yields printable parameters created now. |
| SignatureParams.HttpSignatureParams.SetRandomNonce | httpsig/src/signature_params.rs:97-102 | Changes only the nonce, to the base64 of the random bytes, and always keeps the parameters printable. |
| SignatureParams.HttpSignatureParams.SetKeyInfo | httpsig/src/signature_params.rs:90-94 | Changes only key id and algorithm, and keeps the parameters printable when both need no escaping. |
| SignatureParams.HttpSignatureParams.SetExpiresWithDuration | httpsig/src/signature_params.rs:105-110 | Changes only the expiry, to creation time plus the duration or 300 seconds in 64 bits; panics exactly without a creation time or on an overflow that is checked; keeps well-formed parameters well formed exactly when the expiry has at most 15 digits. |
| SignatureParams.HttpSignatureParams.Display | httpsig/src/signature_params.rs:123-153 | The text grown piece by piece is the printed form that the round trips are about. |
| Component.ComponentRoundTrip | httpsig/src/message_component/component.rs:22-66 | A printed component line reads back as the component when its identifier prints without a colon and its value is trimmed plain text. |
| Identifiers.LineExactly | httpsig/src/message_component/component.rs:22-46 | Every line: no colon is an error, text in front that is not quoted is another, and otherwise identifier and trimmed value. |
| Decoding.ComponentReadsBackExactly | httpsig/src/message_component/component.rs:22-66 | A component reads back from its printed line if and only if its identifier is well formed and prints without a colon and its value is trimmed plain text. |
| Component.HandleParamsSf | httpsig/src/message_component/component_param.rs:105-125 | Overwrites every value with its serialisation, or changes nothing on an error. |
| Component.BuildHttpFieldComponent | httpsig/src/message_component/component.rs:144-183 | The loop over parameters with its reassigned list of values computes the fold that the order theorems are about. |
| Component.QueryParamInverts | httpsig/src/message_component/component.rs:105-124 | From `&`-joined pairs with anything without `=` in between, selecting a name gives the `", "` join of exactly that name's values in order, and an error exactly when every part is empty. |
| Component.EveryQuerySelects | httpsig/src/message_component/component.rs:105-124 | For every query string, the value for a name is the `", "` join of exactly the values under it, in order, and an error exactly when the query holds nothing but ampersands. |
| Component.AbsentName | httpsig/src/message_component/component.rs:105-124 | A name that does not occur in a query has the empty value, and is an error exactly when the query holds nothing but ampersands. |
| Component.AbsentNameExample | httpsig/src/message_component/component.rs:105-124 | The query `b=1` has the empty value under the name `a`. |
| FieldParameters.OrdersAgreeExactly | httpsig/src/message_component/component.rs:151-172 | `sf` before `key` and `key` before `sf` give the same result exactly when no value is blank or some value is no dictionary. |
| FieldParameters.OrdersDiffer | httpsig/src/message_component/component.rs:151-172 | One empty value, for any key: `sf` before `key` fails and `key` before `sf` does not. |
| FieldParameters.ParamsMean | httpsig/src/message_component/component.rs:148-176 | The loop over any parameters, one of each kind, does what an order-free description says: a selected member is canonical already, and a leading `sf` only refuses blank values. |
| FieldValues.SfExactly | httpsig/src/message_component/component_param.rs:105-125 | `sf` writes each value as a list if it is one with members, else as a dictionary if it is one, and refuses the rest. |
| FieldValues.KeyExactly | httpsig/src/message_component/component_param.rs:127-150 | `key` fails exactly if a value is no dictionary, and otherwise gives the members under that key, each written without the key. |
| FieldParameters.SameSetSameValue | httpsig/src/message_component/component.rs:148-183 | Identifiers equal as parameter sets give the same value, or both fail, exactly when they order `sf` and `key` alike, or no value is blank, or some value is no dictionary, or a parameter is not supported. |
| FieldParameters.MissingLooksEmpty | httpsig-hyper/src/hyper_http.rs:818-824 | A missing field and a field with one empty value give the same result exactly when the first parameter other than `req` is not `sf`. |
| FieldParameters.MissingIsEmpty | httpsig-hyper/src/hyper_http.rs:818-824 | A missing field is an error exactly when a parameter is not supported, and has the empty value otherwise. |
| Merging.MergedKeyExactly | httpsig/src/message_component/component_param.rs:127-150 | For lines that `key` accepts one by one, blank ones included, merging them keeps the value of a component with `key` exactly when there is one line; or none is blank and at most one has the member; or one is blank and `sf` comes before `key`, so that both sides fail. |
| Merging.MergedLists | httpsig/src/message_component/component_param.rs:105-125 | Merging field lines that are lists always keeps the value of a component with `sf` and without `key`. |
| Merging.MergedCanonicalExactly | httpsig/src/message_component/component_param.rs:105-125 | For lines that `sf` accepts one by one, merging them keeps the value of a component with `sf` and without `key` exactly when all are lists, or all are dictionaries and no key is written twice. |
| Merging.MergedPlain | httpsig/src/message_component/component.rs:144-183 | Merging any field lines keeps the value of a component without `sf` and `key`. |
| SignatureBase.Display | httpsig/src/signature_base.rs:237-246 | The text grown line by line is the printed base that the theorems are about, and the newline join of `identifier: value` for each line and `"@signature-params": ` with the parameters at the end. |
| SignedText.SignedBytes | httpsig/src/signature_base.rs:175-179 | The signed bytes are the UTF-8 text of these lines with a newline between any two. |
| SignedText.LastLineReads | httpsig/src/signature_base.rs:237-246 | The last line reads as a component whose identifier is `@signature-params`, whatever the parameters. |
| SignedText.BaseExactly | httpsig/src/signature_base.rs:151-173 | A base is accepted exactly when its lines are those of the covered identifiers, one by one, with the parameters of each in any order. |
| SignatureBase.BaseInjective | httpsig/src/signature_base.rs:175-179 | Two bases whose lines carry their covered identifiers and that print no newline, but otherwise hold any strings, have equal bytes only if their printed parameters and, line by line, printed identifiers and values are equal. |
| SignatureBase.WellFormedBaseInjective | httpsig/src/signature_base.rs:151-179 | Well-formed bases with equal bytes have equal parameters, identifiers and rendered values, also if their lines order an identifier's parameters differently from the covered list. |
| SignatureBase.NewlineAmbiguity | httpsig/src/signature_base.rs:237-246 | For every two ids and all texts, a base whose first value holds a newline followed by the second id has the same bytes as one that moves the rest of that value to the second line, with different values: the newline condition cannot be dropped. |
| SignatureBase.BaseRoundTrip | httpsig/src/signature_base.rs:237-246 | Splitting a printed base at its newlines and reading each line with the line parser and the last with the parameters parser gives back the base. |
| Decoding.BaseReadsBackExactly | httpsig/src/signature_base.rs:237-246 | A base reads back from its printed form if and only if its lines are those of its covered identifiers, every line reads back and holds no newline, and the parameters are well formed. |
| Utf8.EncodeInjective | httpsig/src/signature_base.rs:176-179 | Different texts have different UTF-8 bytes. |
| SignatureHeaders.PairingExact | httpsig/src/signature_base.rs:44-99 | Pairing accepts exactly the dictionaries with equal key sets, bytes on one side and convertible inner lists on the other; the result follows the `signature-input` order, with name, parameters and bytes of the same key; the last arm is unreachable. |
| Reading.PairingFails | httpsig/src/signature_base.rs:44-99 | Dictionaries that do not match are refused as such; otherwise the first entry whose parameters are refused decides the error. |
| Reading.ReadsFields | httpsig-hyper/src/hyper_http.rs:746-769 | The two fields, by their literal names, must be there and be text, and joined must be dictionaries; each failure with its error. |
| SignatureHeaders.InputReads | httpsig/src/signature_base.rs:122-124 | A printed `signature-input` value parses to one member under the signature's name that converts back to its parameters. |
| SignatureHeaders.SignatureReads | httpsig/src/signature_base.rs:118-120 | A printed `signature` value parses to one member under the signature's name that holds its bytes. |
| Message.BuiltBaseIsExact | httpsig-hyper/src/hyper_http.rs:775-804 | A base that is built always passes its own order check and carries exactly the covered identifiers and the given parameters. |
| Extraction.RequestShows | httpsig-hyper/src/hyper_http.rs:884-911 | What a request shows for each derived name: ASCII upper case for the method, lower case for authority and scheme, the targets of CONNECT and OPTIONS, `/` for an empty path, `?` in front of the query. |
| Extraction.QueryParamShows | httpsig-hyper/src/hyper_http.rs:912-919 | `@query-param` shows the values under its name in the query of the request line, and is an error without a name or with nothing between the ampersands. |
| Extraction.ResponseShows | httpsig-hyper/src/hyper_http.rs:864-885 | A response shows its status, and without `req` every name that belongs to a request is an error. |
| Extraction.ResponseShowsRequest | httpsig-hyper/src/hyper_http.rs:784-799 | With `req` a response shows exactly what its request shows without. |
| Extraction.ReqRefused | httpsig-hyper/src/hyper_http.rs:784-799 | `req` is refused in a request and without one, on any identifier. |
| Extraction.ParamRefused | httpsig-hyper/src/hyper_http.rs:843-863 | The parameters of fields are refused on derived names, and `name` on all but `@query-param`. |
| Extraction.SignatureParamsShows | httpsig/src/message_component/component.rs:125-138 | `@signature-params` shows the first `signature-input` value behind its first `=`. |
| Extraction.SignatureParamsMissing | httpsig/src/message_component/component.rs:125-138 | Without such a value, without an `=`, or with one that is not text, there is no such component. |
| Extraction.FieldShows | httpsig-hyper/src/hyper_http.rs:807-824 | A field component is built from all values under its name in lower case, of the request with `req` and of the message without; a value that is not text is an error. |
| Message.BaseFrame | httpsig-hyper/src/hyper_http.rs:775-804 | If two messages agree on what each covered identifier reads, on the request for those with `req` and on the message for the others, their bases are equal. |
| Message.UncoveredFields | httpsig-hyper/src/hyper_http.rs:807-930 | Changing, adding or removing fields that no covered identifier of the message itself reads, names compared without case, leaves the base unchanged. |
| Message.ResponseSources | httpsig-hyper/src/hyper_http.rs:784-799 | A response's base ignores the request unless an identifier has `req`, and ignores the response if all have it. |
| Binding.BuiltBaseIsWellFormed | httpsig-hyper/src/hyper_http.rs:775-930 | Every base built from a message whose start line holds no newline meets the injectivity theorem's conditions: no extraction, `sf`, `key` or query selection brings in a newline. |
| Binding.BytesBindMessage | httpsig-hyper/src/hyper_http.rs:775-804 | If the bases of two messages have the same bytes, then the printed parameters agree and, position by position, so do printed identifiers and covered values, for any parameters that print on one line; well-formed parameters are equal. |
| Signing.PairedGrowth | httpsig-hyper/src/hyper_http.rs:280-312 | On every exit the appended fields are complete pairs for a prefix of the requests: all on success, none if a base or signature fails, and every other field is untouched. |
| Signing.PlannedExactly | httpsig-hyper/src/hyper_http.rs:412-425 | All bases and signatures of a call are produced, before anything is written, exactly when every request can be built and signed on its own. |
| SignedFields.SigningWrote | httpsig-hyper/src/hyper_http.rs:280-312 | A successful call has written, for every request in order, `name=params` to `signature-input` and `name=:base64:` to `signature`, the signature being the key's over the bytes of the base, `sig` being the default name, and nothing else. |
| SignedFields.SigningFails | httpsig-hyper/src/hyper_http.rs:280-312 | The first base that cannot be built decides the error, then a key that cannot sign, both leaving the message alone; after that the call succeeds exactly when all names and printed parameters can be transmitted. |
| Signing.HttpMessage.SetMessageSignatures | httpsig-hyper/src/hyper_http.rs:403-436 | The loop that appends to the message's headers computes, with its result, the function that the theorems are about. |
| SignatureFields.GrowAll | httpsig-hyper/src/hyper_http.rs:746-769 | Writing any signatures to a message whose fields are absent or hold a signature inserts them into the signatures that can be read from it, one after the other. |
| SignatureFields.FreshNamesAppend | httpsig-hyper/src/hyper_http.rs:746-769 | Fresh distinct names add exactly one entry each, in request order, after the old ones. |
| Readability.ReadableExactly | httpsig-hyper/src/hyper_http.rs:746-769 | For every message, the signatures can be read after a successful signing call exactly when each of its two fields was absent or spelled a dictionary with members, and every member without a partner, or of the wrong type, is under a name that the call writes. |
| Parity.NeverRepaired | httpsig-hyper/src/hyper_http.rs:754-768 | Joining a value without backslashes and with an even number of quotation marks to any text that is no dictionary gives no dictionary, although it may close a string that the text leaves open. |
| Readability.UnspelledFieldBlocks | httpsig-hyper/src/hyper_http.rs:746-769 | A message with a field that does not parse or is blank is signed successfully and can then not be read, whatever names are written. |
| Readability.ReadyExactly | httpsig-hyper/src/hyper_http.rs:746-769 | Before signing: the fields are absent, or can be read and hold a signature, exactly when they spell dictionaries all of whose members pair up, key by key. |
| Readability.BlankFieldsBlock | httpsig-hyper/src/hyper_http.rs:746-769 | A message with a field that holds one value of spaces is signed successfully and can then not be read, whatever names are written. |
| Readability.LoneInputExactly | httpsig-hyper/src/hyper_http.rs:746-769 | A message with a `signature-input` and no `signature` is signed successfully, and can then be read exactly when the call writes that name. |
| Readability.UnpairedExactly | httpsig-hyper/src/hyper_http.rs:746-769 | A message whose two fields hold members under different names is signed successfully, and can then be read exactly when the call writes both names. |
| OwnFields.OwnFieldExactly | httpsig-hyper/src/hyper_http.rs:807-824 | A covered component that reads a signature field of its own message, with any parameters, keeps its value, when signatures are appended, exactly if it selects a member under a name that is not among theirs. |
| OwnFields.SteadyBase | httpsig-hyper/src/hyper_http.rs:775-804 | After any signatures were written, a base that could be built before is rebuilt the same exactly when every component that reads a signature field of its own message selects a member under a name that is not among the written ones. |
| Verifying.VerifiesFirstMatch | httpsig-hyper/src/hyper_http.rs:668-698 | The result for a key is the first name in map order that has the key id, has `expires` not before now and whose signature verifies over its base, and an error exactly when there is none. |
| Verifying.VerifiesEveryKey | httpsig-hyper/src/hyper_http.rs:330-345 | There is one result per key, in order, each the first match for its key; verifying fails as a whole exactly when the signature fields cannot be read. |
| VerifyingExactly.VerifiesExactly | httpsig-hyper/src/hyper_http.rs:643-701 | Every key is answered, in order, with the name of the first signature the message carries that is good for it, or with an error that says whether there was a candidate; verifying fails as a whole with the error of reading the signatures. |
| VerifyingExactly.VerifiedIsCurrent | httpsig/src/signature_params.rs:112-120 | A signature that verifies has no expiry or one that is not before now. |
| VerifyingExactly.ExpiredFails | httpsig/src/signature_base.rs:202-214 | A message whose signatures have all expired verifies under no key. |
| SigningRuns.SignedIsCarried | httpsig-hyper/src/hyper_http.rs:280-312 | After signing a message whose fields are absent or spell dictionaries, paired or not, both fields hold, under each name that the call does not repeat, the new parameters and signature, and the signed base is rebuilt, also if the name was in use before. |
| SigningRuns.SignThenVerify | httpsig-hyper/src/hyper_http.rs:280-352 | On every message, what was signed verifies under a matching key and key id, and is extracted with the very base that was signed, exactly when each field was absent or spelled members and the call overwrites whatever did not pair up; fields that do not parse are never repaired. |
| SigningRuns.CarriedVerifies | httpsig-hyper/src/hyper_http.rs:643-701 | A signature that a message carries verifies under a matching key exactly when everything in the message's fields pairs up. |
| SigningRuns.CarriedThroughRun | httpsig-hyper/src/hyper_http.rs:280-352 | A signature that a message carries keeps its parameters, bytes and base through any run of signing calls, failing ones included, in which no successful call reuses its name or disturbs its components. |
| SigningRuns.FailureChangesNothing | httpsig-hyper/src/hyper_http.rs:288-311 | With well-formed requests a signing call that fails leaves the message as it was. |
| SigningRuns.RunStaysReady | httpsig-hyper/src/hyper_http.rs:280-312 | No run of well-formed requests makes the readable signatures of a message unreadable. |
| SigningRuns.RunReadyExactly | httpsig-hyper/src/hyper_http.rs:280-312 | After any run of well-formed requests on any message, the signatures are in order exactly when each field was absent or spelled members and the successful calls overwrote whatever did not pair up; fields that do not parse are never repaired. |
| SigningRuns.RunIndependence | httpsig-hyper/src/hyper_http.rs:280-352 | Over any run of signing calls, succeeding or failing, every signature that a successful call made keeps its parameters, bytes and base to the end unless a later successful call reuses its name or disturbs its components, if the fields were absent or spelled members at the start; on any message it verifies exactly when they did and the run overwrote whatever did not pair up. |
| SigningRuns.SucceedsExactly | httpsig-hyper/src/hyper_http.rs:403-436 | With well-formed requests, a signing call succeeds exactly when every base can be built and every key signs it. |
| Necessity.SignedReadsExactly | httpsig-hyper/src/hyper_http.rs:403-436 | On a message whose fields are absent or spell members, any successful list of requests under fresh, distinct names is read back in full, each under its name with its parameters and signature, if and only if all names are structured-field keys, all parameters are well formed, and the call writes every name that has no partner. |
| Necessity.ReadIsWritable | httpsig-hyper/src/hyper_http.rs:746-769 | Any values appended under fresh, distinct names to fields that are absent or spell members: if all are read back as what they were printed from, then all have legal names and well-formed parameters. |
| SigningRuns.SignedTwice | httpsig-hyper/src/hyper_http.rs:280-352 | A complete run from nothing but the keys: any request without signatures, signed in two calls under two legal names, verifies under both keys. |
| Soundness.VerifiedWasSigned | httpsig-hyper/src/hyper_http.rs:643-701 | If a key accepts only bytes that were signed and a message verifies, then the named, unexpired signature of that message shows the printed parameters and every covered value of something that was signed; if those parameters were well formed, the received ones are the same exactly when none of their strings needs escaping. |
| Soundness.ReceivedUnescaped | httpsig/src/signature_params.rs:139-224 | For any well-formed parameters without a tag and all plain texts, a received text with escapes reads as a key id with a quotation mark, whose base over every message has the bytes of another key id and a tag. |
| ContentDigest.SetThenExtract | httpsig-hyper/src/hyper_content_digest.rs:111-128 | After setting a digest, extraction gives exactly its type and bytes, and every other field is untouched. |
| ContentDigest.VerifiesExactly | httpsig-hyper/src/hyper_content_digest.rs:132-155 | A header that yields a type and bytes accepts exactly the bodies with that digest; any other header fails with its extraction error; body and message are handed back unchanged. |
| ContentDigest.AnswersExactly | httpsig-hyper/src/hyper_content_digest.rs:132-155 | The answer for every message and body: accepted exactly when the first `content-digest` value is a dictionary with one member, under `sha-256` or `sha-512`, that is the digest of the body as bytes with any parameters; each other case with its error. |
| ContentDigest.TwoDigestsFail | httpsig-hyper/src/hyper_content_digest.rs:228-232 | A field with two digests is refused, also if both are right. |
| ContentDigest.SetField | httpsig-hyper/src/hyper_content_digest.rs:111-128 | The value that is set, with the field and the algorithms as literals. |
| ContentDigest.SetThenVerify | httpsig-hyper/src/hyper_content_digest.rs:111-155 | A message whose digest was set verifies with its body, and with another body exactly if the digests agree. |
| BodyIntegrity.VerifiedBody | httpsig-hyper/src/hyper_content_digest.rs:132-155 | If a key accepts only bytes that were signed, everything signed carried a digest of its body, and a message verifies by a signature that covers `content-digest`, then a body is accepted for it exactly when it has the digest of a body that was signed. |

## Left out

- Signature algorithms, key loading and hash functions: libraries; they appear as functions.
- Algorithm names and their table: a finite enumeration; `SetAlg` and `SetKeyInfo` take the name.
- `get_alg_key_ids` and `get_signature_params`: projections of the extracted signatures.
- The asynchronous machinery and the blocking wrappers: results are collected in order, and the wrappers delegate.
- Collecting and boxing bodies, tracing, and the texts of error messages.
- URI parsing: the parts of a request target are given; that they hold no newline is a hypothesis where it matters.
- The `sfv` library is not part of this model beyond the parser and serialiser of RFC 9651.
- Constant-time comparison: only its boolean result.
- The capacity limits of header maps and the length limit of header names.
