# tauri_hello_react core, modelled in Dafny

A Tauri desktop app talks to a NEAR "greeting" contract. Its Rust back end has
three parts in this model:

- `get_near_greeting` picks the `mainnet` or `testnet` section of its
  configuration and sends a read-only `get_greeting` view call at final
  finality. It decodes the returned bytes as a `{"greeting": ...}` JSON
  object, or else as UTF-8 text with its surrounding double quotes stripped.
- `load_near_credentials` scans `~/.near-credentials/{mainnet,testnet}/*.json`
  and keeps a credential for every key file that parses.
- `error.rs` is a closed error enum with a `Display` rendering and `From`
  conversions.

The React front end contributes the account-id shortener `formatAccountId`
and the profile selector. The selector encodes a profile as
`accountId-network`, splits the chosen value on `-` and looks the profile up.

Modules, one file each:

| file | module | models |
|---|---|---|
| `wrappers.dfy` | `Wrappers` | `Option` and `Result` |
| `utf8.dfy` | `Utf8` | `String::from_utf8`, its `Utf8Error` and that error's text; the encoder it inverts |
| `near_get_greeting.dfy` | `NearGreeting` | network dispatch, the view request, response decoding, `trim_matches('"')`, the whole command |
| `near_credentials.dfy` | `NearCredentials` | file names as the OS gives them, stem and extension, the loader as an imperative method with its specification |
| `account_format.dfy` | `AccountFormat` | `formatAccountId` |
| `profile_selector.dfy` | `ProfileSelector` | option keys, `split('-')` decoding, `Array.find` lookup, and a corrected decoding |
| `error.dfy` | `NearErrors` | `NearError`, `Display`, the four `From` impls |

Everything outside the program's own logic is an input to the model:

- the configuration file;
- the account-id parser;
- the JSON-RPC node;
- the two `serde_json` parses;
- the file system.

The file system is a value. It has an optional home directory, the credentials
directory listing, and for each network directory its name, file type and
listing. For each file it has the name, the `is_file` flag and the content
(None when it cannot be read).

## Model

| member | source | states |
|---|---|---|
| NearGreeting.SelectNetwork | src-tauri/src/near_get_greeting.rs:47-51 | the result is Ok exactly for `mainnet` and `testnet`, giving that network's section; any other name is `Err("Invalid network specified")` |
| NearGreeting.GreetingRequest | src-tauri/src/near_get_greeting.rs:60-68 | the request calls `get_greeting` on the given contract at `Final` finality, and its argument bytes decode as UTF-8 to `{}` |
| NearGreeting.TrimStartQuotes | src-tauri/src/near_get_greeting.rs:82 | the result is no longer than the input and does not start with `"` |
| NearGreeting.TrimEndQuotes | src-tauri/src/near_get_greeting.rs:82 | the result is a prefix of the input and does not end with `"` |
| NearGreeting.TrimQuotes | src-tauri/src/near_get_greeting.rs:82 | the trimmed text never starts or ends with `"` and is no longer than the input |
| NearGreeting.TrimStartDropsQuotes | src-tauri/src/near_get_greeting.rs:82 | the input is a run of quotes followed by the front-trimmed text |
| NearGreeting.TrimEndDropsQuotes | src-tauri/src/near_get_greeting.rs:82 | the input is the back-trimmed text followed by a run of quotes |
| NearGreeting.TrimQuotesDecomposes | src-tauri/src/near_get_greeting.rs:82 | the input is some quotes, then the trimmed text, then some quotes, so the result is a contiguous piece of the input |
| NearGreeting.TrimQuotesUnique | src-tauri/src/near_get_greeting.rs:82 | any text with no quote at either end, wrapped in any runs of quotes, trims back to exactly that text |
| NearGreeting.TrimQuotesKeepsUnquoted | src-tauri/src/near_get_greeting.rs:82 | text with no quote at either end is returned unchanged |
| NearGreeting.TrimQuotesIdempotent | src-tauri/src/near_get_greeting.rs:82 | trimming twice equals trimming once |
| NearGreeting.DecodeResponse | src-tauri/src/near_get_greeting.rs:73-89 | a non-`CallResult` response gives `Err("Unexpected response type")`; a structured parse that succeeds gives its field; otherwise valid UTF-8 gives the quote-trimmed text and invalid UTF-8 gives `Failed to parse response as string: ` plus the UTF-8 error text |
| NearGreeting.RawFallbackMeaning | src-tauri/src/near_get_greeting.rs:80-83 | when the structured parse fails, the result is Ok exactly when the bytes encode some text; the greeting is then free of edge quotes and the bytes encode it wrapped in quotes; an Err starts with `Failed to parse response as string: ` |
| NearGreeting.QuotedTextExample | src-tauri/src/near_get_greeting.rs:78-82 | the bytes of `"hi"` that are not a greeting object decode to `hi` |
| NearGreeting.GetNearGreeting | src-tauri/src/near_get_greeting.rs:43-89 | at most one request is sent, and an Ok result always follows a request |
| NearGreeting.ConfigErrorSendsNothing | src-tauri/src/near_get_greeting.rs:44-45 | a configuration read or TOML error ends the command with that error's text and sends no request |
| NearGreeting.InvalidContractSendsNothing | src-tauri/src/near_get_greeting.rs:57-58 | a known network whose contract id is invalid ends the command with `Invalid account ID: ` and the parser's text, and sends no request |
| NearGreeting.InvalidNetworkSendsNothing | src-tauri/src/near_get_greeting.rs:47-51 | an unknown network name fails with `Invalid network specified` and sends no request |
| NearGreeting.KnownNetworkQueriesItsContract | src-tauri/src/near_get_greeting.rs:53-89 | for a known network and a valid contract id, the one request sent is `GreetingRequest` of that network's contract: `get_greeting` at `Final`, with argument bytes that decode to `{}`; the result is the transport error or the decoded response |
| Utf8.DecodeFirst | src-tauri/src/near_get_greeting.rs:81 | a sequence read at the head is 1 to 4 bytes within the input; an ill-formed one is 1 to 3 bytes long; a truncated one is at the end of fewer than 4 bytes |
| Utf8.Decode | src-tauri/src/near_get_greeting.rs:81 | decoded text has at most one character per byte; an error's `valid_up_to` and `error_len` lie within the input |
| Utf8.Encode | src-tauri/src/near_get_greeting.rs:67 | the encoding takes between one and four bytes per character |
| Utf8.NatToString | src-tauri/src/near_get_greeting.rs:83 | the rendering of an index or length is a non-empty string of decimal digits with no leading zero (`0` is the single digit `0`) |
| Utf8.NatToStringValue | src-tauri/src/near_get_greeting.rs:83 | the digits of the rendering stand for the number rendered |
| Utf8.ErrorText | src-tauri/src/near_get_greeting.rs:83 | the UTF-8 error's text ends with the decimal `valid_up_to`, and starts with `incomplete utf-8 byte sequence from index ` exactly when the input ended inside a sequence; otherwise it starts with `invalid utf-8 sequence of `, the decimal `error_len` and ` bytes from index ` |
| Utf8.DecodeEncode | src-tauri/src/near_get_greeting.rs:81 | the encoding of any text decodes back to that text |
| Utf8.EncodeDecode | src-tauri/src/near_get_greeting.rs:81 | bytes that decode are exactly the encoding of their text |
| Utf8.DecodeFailsIffNotEncoding | src-tauri/src/near_get_greeting.rs:81-83 | decoding fails exactly when the bytes are the encoding of no text |
| Utf8.ValidUpToIsLongest | src-tauri/src/near_get_greeting.rs:83 | no prefix of rejected bytes longer than the reported `valid_up_to` decodes |
| Utf8.ValidPrefixDecodes | src-tauri/src/near_get_greeting.rs:83 | `valid_up_to` is the length of the longest prefix that decodes: the bytes before it decode on their own, and every longer prefix is rejected |
| NearCredentials.ToStr | src-tauri/src/near_credentials.rs:55 | a name converts to text exactly when every unit is a character, and the text is those characters |
| NearCredentials.NetworkName | src-tauri/src/near_credentials.rs:65 | a directory's network is its name as text, or `""` when the name is not UTF-8 |
| NearCredentials.IsScanned | src-tauri/src/near_credentials.rs:49-57 | an entry is scanned exactly when it was read, is a directory, and its name is the text `mainnet` or `testnet`; a name that is not UTF-8 is never scanned |
| NearCredentials.Extension | src-tauri/src/near_credentials.rs:72 | an extension is the dot-free tail after the last dot, with something before that dot; there is none exactly when no dot follows the first unit, or the name is `..` |
| NearCredentials.FileStem | src-tauri/src/near_credentials.rs:76 | every file name has a stem; the name is the stem, a dot and the extension when there is one, and the stem alone otherwise |
| NearCredentials.FileCredential | src-tauri/src/near_credentials.rs:70-94 | a credential from a key file carries the directory's network and a private key |
| NearCredentials.LoadCredentials | src-tauri/src/near_credentials.rs:34-111 | the loader's specified response has an error exactly for a missing home directory or an unreadable credentials directory, and then no credentials |
| NearCredentials.FromStr | src-tauri/src/near_credentials.rs:56 | the OS name of a text converts back to that text |
| NearCredentials.JsonExtensionIff | src-tauri/src/near_credentials.rs:72 | a name has extension `json` exactly when it ends in `.json` after at least one other unit; its stem is then everything before `.json` |
| NearCredentials.FileCredentialSource | src-tauri/src/near_credentials.rs:70-94 | an entry gives a credential exactly when it is a readable regular `.json` file with a UTF-8 stem and content that parses; the credential carries that stem, the directory's network and the parsed keys, with the private key present |
| NearCredentials.LoadNearCredentials | src-tauri/src/near_credentials.rs:34-111 | the loader's response equals the specification `LoadCredentials` of the file system: an error for no home or an unreadable directory, otherwise the credentials of every scanned directory in listing order |
| NearCredentials.ScanNetworkDir | src-tauri/src/near_credentials.rs:68-104 | the inner loop appends to the vector the credentials of the directory's files, in listing order |
| NearCredentials.ReadKeyFile | src-tauri/src/near_credentials.rs:70-103 | the checks on one entry, in the loader's order, give the entry's specified credential or skip it |
| NearCredentials.FilesCredentialsFrom | src-tauri/src/near_credentials.rs:69-94 | every credential of a directory comes from one of its files |
| NearCredentials.AllCredentialsFrom | src-tauri/src/near_credentials.rs:64-106 | every credential comes from a file in a scanned network directory |
| NearCredentials.LoadedCredentialsProvenance | src-tauri/src/near_credentials.rs:52-94 | every loaded credential has network `mainnet` or `testnet` and a private key, and comes from a file of a scanned directory |
| NearCredentials.LoadedNetworkIsKnown | src-tauri/src/near_credentials.rs:52-65 | a loaded credential's network is `mainnet` or `testnet` |
| NearCredentials.FilesCredentialsCount | src-tauri/src/near_credentials.rs:69-94 | a directory gives at most one credential per regular `.json` file |
| NearCredentials.AllCredentialsCount | src-tauri/src/near_credentials.rs:64-106 | the credentials number at most the regular `.json` files in the scanned directories |
| NearCredentials.ParsedFilesAllLoaded | src-tauri/src/near_credentials.rs:85-102 | every file of one directory that yields a credential has it in that directory's list, whatever fails around it |
| NearCredentials.ParsedFileLoaded | src-tauri/src/near_credentials.rs:64-106 | every file of a scanned network directory that yields a credential has it in the loader's response |
| NearCredentials.LoadErrorCases | src-tauri/src/near_credentials.rs:36-62 | a missing home directory reports `Could not find home directory`; an unreadable credentials directory reports `Failed to read credentials directory` |
| AccountFormat.FormatAccountId | src/utils/near-credentials.ts:28-33 | the output is at most 20 characters; an id of at most 20 is unchanged; a longer one becomes 19 characters: its first 8, `...`, and its last 8 |
| AccountFormat.ShortenedHalvesDisjoint | src/utils/near-credentials.ts:30 | the kept prefix and suffix do not overlap: more characters than the ellipsis lie between them |
| AccountFormat.FormatAccountIdIdempotent | src/utils/near-credentials.ts:28-33 | formatting twice equals formatting once |
| ProfileSelector.SelectionKey | src/components/ProfileSelector.tsx:29 | the option key and value is the account id, a `-`, then the network |
| ProfileSelector.SelectValue | src/components/ProfileSelector.tsx:15 | the value is `""` with no current profile, else the join of its account id and network with `-` |
| ProfileSelector.DisplayName | src/components/ProfileSelector.tsx:27 | the label is the account id, a `.`, then the network |
| ProfileSelector.IndexOf | src/components/ProfileSelector.tsx:17 | the index found is the first occurrence of the separator; None means none occurs |
| ProfileSelector.Split | src/components/ProfileSelector.tsx:17 | splitting gives at least one piece, and no piece contains the separator |
| ProfileSelector.JoinSplit | src/components/ProfileSelector.tsx:17 | joining the pieces with the separator gives back the string |
| ProfileSelector.SplitJoin | src/components/ProfileSelector.tsx:17 | splitting a join of separator-free pieces gives back the pieces |
| ProfileSelector.DecodeKey | src/components/ProfileSelector.tsx:17 | the account id is everything before the first `-` (the whole value when there is none); the network is missing exactly when the value holds no `-`, and is otherwise the text after the first `-` up to the next `-` or the end |
| ProfileSelector.FindFirst | src/components/ProfileSelector.tsx:18 | the index found is the first profile that matches both fields; None means no profile matches |
| ProfileSelector.OnChange | src/components/ProfileSelector.tsx:16-22 | the handler calls `onProfileChange` exactly when some profile matches both decoded fields, and then with the first such profile in list order |
| ProfileSelector.KeyRoundTrip | src/components/ProfileSelector.tsx:15-17 | a profile whose account id and network hold no `-` decodes from its key to exactly its fields |
| ProfileSelector.SelectingOwnKey | src/components/ProfileSelector.tsx:15-21 | choosing such a profile's option hands over the first listed profile with the same account id and network |
| ProfileSelector.DashedAccountIdCut | src/components/ProfileSelector.tsx:17 | for an account id holding `-`, the decoded account id is exactly its part before the first `-` |
| ProfileSelector.DashedAccountNeverSelected | src/components/ProfileSelector.tsx:17-21 | choosing the option of a profile whose account id holds `-` never hands over a profile with that account id |
| ProfileSelector.DashedAccountExample | src/components/ProfileSelector.tsx:17-21 | with the single profile `my-app.testnet` on testnet, choosing its option calls nothing |
| ProfileSelector.DashedAccountPicksAnother | src/components/ProfileSelector.tsx:17-21 | choosing the option of an account id `a-n-x` on network `n` hands over a profile `a` on `n` listed before it |
| ProfileSelector.LastIndexOf | src/components/ProfileSelector.tsx:17 | the index found is the last occurrence of the separator; None means none occurs |
| ProfileSelector.DecodeKeyAtLastDash | src/components/ProfileSelector.tsx:17 | the value is the account id, `-`, then a network free of `-`; the network is missing exactly when the value holds no `-` |
| ProfileSelector.OnChangeAtLastDash | src/components/ProfileSelector.tsx:16-22 | with the last-dash decoding, the handler calls `onProfileChange` exactly when some profile matches, and then with the first match |
| ProfileSelector.KeyRoundTripAtLastDash | src/components/ProfileSelector.tsx:15-17 | with the last-dash decoding, every key whose network has no `-` decodes to its own account id and network |
| ProfileSelector.LoadedProfilesSelectable | src/components/ProfileSelector.tsx:15-21 | with the last-dash decoding, choosing the option of any loaded credential hands over a profile with its account id and network |
| NearErrors.Display | src-tauri/src/error.rs:11-20 | the rendering is the kind's fixed prefix followed by the message |
| NearErrors.FromForeign | src-tauri/src/error.rs:22-44 | I/O and TOML errors become configuration errors, JSON-RPC errors network errors and JSON errors parse errors, never contract errors; the message is the foreign error's text unchanged |
| NearErrors.PrefixesDiffer | src-tauri/src/error.rs:13-18 | prefixes of two different kinds differ at some position within both, so neither starts the other |
| NearErrors.DisplayDistinguishesKinds | src-tauri/src/error.rs:13-18 | errors of different kinds never render alike |
| NearErrors.DisplayInjective | src-tauri/src/error.rs:13-18 | two errors render alike exactly when they are equal |
| NearErrors.DisplayFromForeign | src-tauri/src/error.rs:22-44 | a converted error renders as its kind's prefix followed by the foreign error's text |

## Left out

- The transaction path is not part of this model. That is `src-tauri/src/near_update_greeting.rs`: nonce, signing and broadcast inside the `near_api` crate. Its network match is the same as the one modelled.
- Reading `src/network_config.toml` and parsing it as TOML are file I/O and a library parser. The model takes the loaded configuration, or the text of either error, as an input.
- `AccountId::from_str` is a library validator. The model takes the text of its error, if any, as an input, and models the `Invalid account ID: ` wrapping.
- The JSON-RPC client is network I/O and async. `connect` and `call` are replaced by a function from the request to the node's response kind or the error text.
- NearGreeting.GetNearGreeting: the node URL the client connects to is not recorded in the outcome. The response function sees only the request.
- The `serde_json` parses are replaced by oracle functions:
  - the `GreetingResponse` object parse of the returned bytes;
  - the `RawCredential` parse of a key file, including its ignored extra fields.
- The `NearError` enum declared in `src-tauri/src/near_get_greeting.rs` (lines 11-23) is never constructed: the command's errors are plain strings.
- A failed raw-text decode is the plain string `Failed to parse response as string: ` followed by the UTF-8 error's text. There is no separate decode-error kind.
- `dirs::home_dir`, `read_dir`, `file_type`, `Path::is_file`, `read_to_string` and every `log::` call are I/O.
  - The file system is an input value.
  - `is_file` is a flag per entry; whether it followed a symbolic link is decided outside the model.
  - Logging has no effect on the result.
- `loadNearCredentials` in `src/utils/near-credentials.ts` is a Tauri `invoke` wrapper around the loader.
- React rendering is not part of this model. This covers `App.tsx`, `UpdateGreeting.tsx`, `NetworkSelector.tsx`, and the JSX of the profile selector beyond its value, key, label and change handler.
- `src-tauri/src/lib.rs` is Tauri wiring. It does not declare `error.rs`, which is modelled as written.
- AccountFormat.FormatAccountId: measures and slices in Unicode scalar values, where JavaScript uses UTF-16 code units. The two agree on NEAR account ids, which are ASCII.
- ProfileSelector.DecodeKey: JavaScript strings are modelled as sequences of Unicode scalar values. This does not matter for `split('-')`.

## Findings

| source | as written | input that shows it | evidently intended | confidence | as-written member | corrected member |
|---|---|---|---|---|---|---|
| src/components/ProfileSelector.tsx:17 | `value.split('-')` keeps the first two pieces, so an account id containing `-` is cut at its first `-` | the profile `my-app.testnet` on `testnet`: its key `my-app.testnet-testnet` decodes as account `my` and network `app.testnet`; nothing matches, so choosing it does nothing; `a-testnet-b` on testnet even hands over a profile `a` on testnet listed before it | split at the last `-`, since network names hold none; every loaded profile is then selectable | not executed | ProfileSelector.DashedAccountExample | ProfileSelector.KeyRoundTripAtLastDash |
