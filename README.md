# One-time mail: message parsing, address format and query hand-off

This project models the pure core of a disposable-mailbox web application.
Incoming mail is stored as raw RFC 5322 text. A server-side scan lists the
stored objects, keeps those addressed to the current disposable address,
parses each into an `Email` record (sender, subject, body text, receipt
time, storage key) and returns the records newest first. Addresses have the
form `YYMMDDNNN@otm.mec.mejsh.com`: the six-digit creation date and a
three-digit random sequence. The browser carries the current address in the
`email` query parameter as base64 of its UTF-8 bytes. It accepts an address
that comes back through the query only on the day the address stamps.

Modules, from the bottom up:

- `Wrappers`: `Option`.
- `Types`: the `Email` record. The receipt time is an `Instant` (milliseconds since the epoch).
- `JsText`: the JavaScript string built-ins the code uses, including:
  - `trim` over the ECMAScript white-space and line-terminator set;
  - `includes`, `split`, `padStart` and `slice(-n)`;
  - ASCII `toLowerCase`;
  - the decimal `toString` of a number.
- `Base64`: the RFC 4648 section 4 alphabet with `=` padding. Proved: `Decode(Encode(b)) == Some(b)`, the decoder accepts only canonical text, and `Encode(Decode(s)) == s`.
- `Host`: what the code takes from its JavaScript host, passed in as a `Runtime` value:
  - the clock;
  - `new Date(text)`;
  - Node's `Buffer` base64 reading of malformed text;
  - the UTF-8 codec.
- `MailPatterns`: each regular expression the manual parser applies, written as a function that returns the match an ECMAScript matcher reports. Beside it is a declarative predicate for "a match of this pattern", and a contract that the result is the match the priority rules select: leftmost start, greedy runs longest, lazy runs shortest.
- `S3Utils`: the manual parser `parseEmailContent`, the recipient filter and the newest-first ordering.
- `Calendar`: the `YYMMDD` stamp of a calendar date.
- `EmailActions`: the server actions:
  - the library-first parser and its fallback;
  - address generation;
  - the scan `checkS3Emails`, as a method with a loop proved against a specification function.
- `EmailQuery`: reading, writing and validating the `email` query parameter.

The source and its own comments disagree in two places. The model follows the code:

- The header/body boundary is the leftmost blank line that has text after it, not the last one the comment names. The regular expression has no `/m` flag, and its lazy group is tried at the leftmost start first.
- `Buffer.from(text, 'base64')` never throws. The `catch` around the base64 body and the subject decode therefore never runs: a malformed payload is read leniently, never kept as raw text.

Also, under `/m` the subject pattern's look-ahead holds exactly where `$` holds. The subject capture therefore ends at the first line terminator, and the unfolding `replace` that follows never changes it (`MailPatterns.SubjectStopIsLineEnd`, `S3Utils.SubjectIsDecodedCapture`).

## Model

| member | source | states |
|---|---|---|
| S3Utils.IsEmailForAddress | src/utils/s3-utils.ts:49-51 | true exactly when `"To: " + address` or `"<" + address + ">"` occurs somewhere in the message text |
| EmailActions.IsEmailForAddress | src/app/actions/email-actions.ts:140-143 | the second copy has the same containment contract |
| JsText.Includes | src/utils/s3-utils.ts:50-51 | `includes` holds exactly when the needle occurs at some position |
| MailPatterns.SpaceEnd | src/utils/s3-utils.ts:56 | the greedy `\s*` after the field name stops at the first non-space character, crossing line breaks |
| MailPatterns.LineEndFrom | src/utils/s3-utils.ts:56 | `$` under `/m`: the first position from `p` that ends a line, with no line terminator before it |
| MailPatterns.CaptureFrom | src/utils/s3-utils.ts:56 | the `(.+)$` capture after the space run is the one backtracking reports: the latest start, then the only end, or none when no such capture exists |
| MailPatterns.FieldMatch | src/utils/s3-utils.ts:56 | the reported match of `/^Name:\s*(.+)$/m` is the first by start and by priority among all matches; none exactly when there is no match |
| MailPatterns.FieldValue | src/utils/s3-utils.ts:56 | a captured value is non-empty and holds no line terminator; none exactly when the pattern does not match |
| MailPatterns.FieldAbsent | src/utils/s3-utils.ts:56-57 | with no line starting with the field name, there is no match |
| MailPatterns.FieldPresent | src/utils/s3-utils.ts:56 | a field line followed by any non-terminator character makes the pattern match |
| MailPatterns.FieldOnHeader | src/utils/s3-utils.ts:56 | on the first line starting with the field name, when the white space after the name (possibly across line breaks) ends before the text does, the match starts on that line and its group runs from the end of that white space to the end of the line it reaches |
| MailPatterns.FieldOnFirstLine | src/utils/s3-utils.ts:56 | when the first field line holds a non-space character, the match starts on that line, after its leading space run, and ends at that line's end |
| MailPatterns.FieldValueOnFirstLine | src/utils/s3-utils.ts:56-57 | in that case the trimmed value is the trimmed rest of the first field line |
| S3Utils.ParseFrom | src/utils/s3-utils.ts:56-57 | the sender is the trimmed value the `From:` pattern captures (also when the white space after `From:` runs onto the next line), or `"Unknown"` when it captures none; it is trimmed and single-line |
| S3Utils.FromOfFirstLine | src/utils/s3-utils.ts:56-57 | when the first `From:` line has a non-space character, the sender is the trimmed rest of that line |
| MailPatterns.SubjectStopIsLineEnd | src/utils/s3-utils.ts:60 | under `/m` the subject look-ahead (a next header line, a blank line, or `$`) holds exactly where `$` holds |
| MailPatterns.SubjectMatch | src/utils/s3-utils.ts:60 | the reported subject match is the leftmost, with the shortest lazy capture; the capture holds no line terminator; none exactly when no line begins with `Subject:` |
| MailPatterns.SubjectValue | src/utils/s3-utils.ts:60-61 | the captured subject is absent exactly when no line begins with `Subject:`, and it holds no line terminator |
| MailPatterns.RemoveFolds | src/utils/s3-utils.ts:64-66 | `replace(/\r?\n\s*/g, '')` leaves no `\n` and adds no character |
| MailPatterns.RemoveFoldsIdentity | src/utils/s3-utils.ts:64-66 | on text without `\n` the unfolding changes nothing |
| JsText.Trim | src/utils/s3-utils.ts:102-104 | `trim` leaves a slice of the text with no white space at either end, and only white space is cut from before and after it |
| JsText.StartsWithIs | src/utils/s3-utils.ts:68 | `startsWith(prefix)` holds exactly when the text is the prefix followed by the rest |
| JsText.Split | src/utils/s3-utils.ts:70 | `split('?')` gives at least one part, no part holds `?`, and joining the parts with `?` gives back the text |
| S3Utils.DecodeSubject | src/utils/s3-utils.ts:68-79 | the subject becomes the base64-to-UTF-8 reading of `parts[3]` exactly when it starts with `=?`, has at least four `?`-parts and `parts[2] == "B"`; otherwise it is unchanged |
| S3Utils.EncodedWordShape | src/utils/s3-utils.ts:68-71 | a subject that passes the encoded-word test is `"=?" + charset + "?B?" + payload + rest`, with no `?` in the charset or the payload |
| S3Utils.EncodedWordDecodes | src/utils/s3-utils.ts:68-79 | any `=?charset?B?payload` subject, with any tail that starts with `?`, decodes to the UTF-8 text of its payload |
| S3Utils.EncodedWordRoundTrip | src/utils/s3-utils.ts:68-79 | a text written as the encoded word `=?cs?B?<base64>?=` decodes back to itself |
| S3Utils.ParseSubject | src/utils/s3-utils.ts:60-79 | the subject is undefined exactly when no line begins with `Subject:` |
| S3Utils.SubjectIsDecodedCapture | src/utils/s3-utils.ts:60-79 | the capture holds no `\n`, so the subject is the encoded-word decoding of the capture itself |
| S3Utils.ParseReceivedAt | src/utils/s3-utils.ts:82-91 | the instant is now when no line begins with `Date:` or the pattern finds no value. For any value it finds, the instant is the date parser's reading of the trimmed value, or now when that reading is an Invalid Date |
| S3Utils.ReceivedAtOfFirstLine | src/utils/s3-utils.ts:82-91 | with a first `Date:` line, the instant is the parsed trimmed rest of that line, or now when the parse is invalid |
| JsText.AsciiLower | src/utils/s3-utils.ts:95 | lower-casing keeps the length and maps each character on its own |
| S3Utils.Base64Spelling | src/utils/s3-utils.ts:95 | a value lower-cases to `"base64"` exactly when it is `base64` in any mix of letter cases |
| S3Utils.IsBase64Encoded | src/utils/s3-utils.ts:94-95 | the base64 flag is set exactly when the pattern finds a `Content-Transfer-Encoding:` value whose trimmed, lower-cased form is `"base64"` |
| S3Utils.EncodingOfFirstLine | src/utils/s3-utils.ts:94-95 | the flag is set exactly when the trimmed, lower-cased rest of the first such line is `"base64"` |
| MailPatterns.BlankLineEnd | src/utils/s3-utils.ts:98 | `\r?\n\r?\n` matches at a position exactly when this returns its end, and the end returned is such a match |
| MailPatterns.LazyEnd | src/utils/s3-utils.ts:98 | the lazy `[\s\S]+?` followed by `\r?\n*$` ends at the first position from which only an optional carriage return and then newlines remain |
| MailPatterns.BoundaryAt | src/utils/s3-utils.ts:98 | every boundary match at a blank line has that line's end as its group start, and ends no earlier than the lazy end |
| MailPatterns.BoundaryMatch | src/utils/s3-utils.ts:98 | the reported boundary match is the leftmost blank line that has text after it, with the shortest group; none exactly when there is no match |
| S3Utils.FirstBodyLine | src/utils/s3-utils.ts:102-104 | the first `\n`-line of the trimmed group, trimmed again, is trimmed and holds no `\n` |
| S3Utils.BoundaryGroupTrim | src/utils/s3-utils.ts:98-102 | the newlines the pattern leaves outside the group make no difference once the group is trimmed |
| S3Utils.ParseBody | src/utils/s3-utils.ts:97-117 | without a boundary the body is the whole message text; with one and no base64 flag it is trimmed and single-line |
| S3Utils.BodyAfterLeftmostBlankLine | src/utils/s3-utils.ts:97-114 | with a leftmost blank line that has text after it, the body is the first line of that text, base64-decoded when flagged |
| S3Utils.BodyWithoutBoundary | src/utils/s3-utils.ts:115-116 | when every blank line ends the text, the body is the text verbatim |
| Host.BufferFromBase64 | src/utils/s3-utils.ts:108 | canonical base64 text is read with the RFC 4648 decoding, whose bytes encode back to the same text; the base64 of some bytes reads as exactly those bytes |
| Host.Base64ToText | src/utils/s3-utils.ts:108 | `Buffer.from(text, 'base64').toString('utf-8')` on the base64 of some bytes is the UTF-8 decoding of those bytes |
| S3Utils.ParseEmailContent | src/utils/s3-utils.ts:54-127 | the record keeps the given id and storage key; its sender, subject, receipt time and body are those the four field parsers give for the same content (the body decoded as base64 exactly when the transfer-encoding header says so); its sender is trimmed and its subject is undefined exactly when no line begins with `Subject:` |
| S3Utils.InsertNewest | src/utils/s3-utils.ts:39-41 | inserting one message adds exactly that message to the multiset |
| S3Utils.InsertKeepsOrder | src/utils/s3-utils.ts:39-41 | inserting into a newest-first list keeps it newest first |
| S3Utils.SortNewestFirst | src/utils/s3-utils.ts:39-41 | the result is ordered by receipt time from newest to oldest and is a permutation of the input |
| S3Utils.SortIsStable | src/utils/s3-utils.ts:39-41 | messages with the same receipt time keep their relative order, as `Array.prototype.sort` does |
| EmailActions.FirstAddress | src/app/actions/email-actions.ts:151 | `parsed.from?.value?.[0]?.address`, when truthy, is a non-empty string |
| EmailActions.RichFrom | src/app/actions/email-actions.ts:151 | the sender is the library's display text when truthy, else the first address when truthy, else `"Unknown"`, and never empty |
| EmailActions.RichSubject | src/app/actions/email-actions.ts:154 | the subject is defined exactly when the library's subject is truthy, and then it is that subject |
| EmailActions.RichBody | src/app/actions/email-actions.ts:160-166 | plain text wins in full. Otherwise truthy HTML gives the trimmed tag strip of the HTML, a trimmed body with no tag left, made only of the HTML's characters. Otherwise `""` |
| EmailActions.HtmlTagRemoved | src/app/actions/email-actions.ts:160-166 | with no text part, a closed tag in the HTML is cut out and the text before it is kept in the body |
| MailPatterns.StripTags | src/app/actions/email-actions.ts:165 | after `replace(/<[^>]*>/g, '')` no `<` is followed later by a `>`, and no character is added |
| MailPatterns.StripTagsKeepsText | src/app/actions/email-actions.ts:165 | text without `<` in front of the rest is kept as it stands |
| MailPatterns.StripTagsDropsTag | src/app/actions/email-actions.ts:165 | a `<` and everything up to the first `>` after it are removed |
| MailPatterns.StripTagsUnclosed | src/app/actions/email-actions.ts:165 | text without `>` is unchanged: an unclosed `<` stays |
| MailPatterns.StripTagsTag | src/app/actions/email-actions.ts:165 | for tag-free text `a`, `a + "<" + t + ">" + rest` with no `>` in `t` strips to `a` followed by the strip of `rest` |
| MailPatterns.StripTagsIdentity | src/app/actions/email-actions.ts:165 | HTML without `<` is left unchanged by the strip |
| EmailActions.TrimKeepsTagsOut | src/app/actions/email-actions.ts:165 | trimming stripped HTML leaves no tag behind |
| EmailActions.HtmlWithoutTags | src/app/actions/email-actions.ts:160-166 | with no text part and HTML without `<`, the body is the trimmed HTML |
| EmailActions.ParseEmailContentFallback | src/app/actions/email-actions.ts:184-257 | the second copy of the manual parser is the first one: same record for the same inputs, with the same id, key, sender and subject guarantees |
| EmailActions.ParseEmailContent | src/app/actions/email-actions.ts:145-182 | the given id and key are kept. When the library throws or its date is invalid, the record is exactly the fallback parser's. Otherwise sender, subject and body are the rich selections, and the time is the library's date or now |
| Calendar.Stamp | src/hooks/useEmailFromQuery.ts:53-55 | for a year from 10 on, the stamp is six digits: year modulo 100, then month, then day |
| Calendar.YearDigits | src/app/actions/email-actions.ts:265 | `getFullYear().toString().slice(-2)` is two digits worth the year modulo 100 |
| Calendar.StampDeterminesDay | src/hooks/useEmailFromQuery.ts:52-57 | two dates share a stamp exactly when they agree on year modulo 100, month and day |
| JsText.SliceLast | src/app/actions/email-actions.ts:265 | `slice(-n)` is the last n characters of the text, or the whole of a shorter text (the source calls it with n = 2; JavaScript's `slice(-0)`, the whole text, is not modelled) |
| JsText.PadStart | src/app/actions/email-actions.ts:266-268 | `padStart` gives the longer of the width and the text, with the text at the end and only fill before it |
| JsText.NatToString | src/app/actions/email-actions.ts:266-268 | the decimal numeral is non-empty digits worth the number, with no leading zero |
| JsText.NumeralWidth | src/app/actions/email-actions.ts:266-268 | a number below 10^w has a numeral of at most w digits |
| JsText.PadStartNumeral | src/app/actions/email-actions.ts:266-268 | a numeral zero-padded to its width is exactly that many digits, worth the same number |
| EmailActions.GeneratedAddressShape | src/app/actions/email-actions.ts:263-271 | the address is nine ASCII digits, then `@otm.mec.mejsh.com`: the date stamp, then the sequence padded to three digits |
| EmailActions.GeneratedAddressesDiffer | src/app/actions/email-actions.ts:263-271 | on one day, different sequence numbers give different addresses |
| EmailActions.Harvest | src/app/actions/email-actions.ts:109-125 | one listed item contributes at most one message. It contributes one exactly when it has a non-empty path, its text can be fetched, and the text is for the address, and that message's key is the item's path |
| EmailActions.Collected | src/app/actions/email-actions.ts:105-128 | the loop collects at most one message per item, and each message's key is the path of a listed item |
| EmailActions.CollectedAppend | src/app/actions/email-actions.ts:108-127 | collecting over two runs of items is collecting over each and concatenating |
| EmailActions.FailedItemDropsOnlyItself | src/app/actions/email-actions.ts:110-125 | an item without a path, or whose text cannot be fetched, drops out and changes nothing else in the result |
| EmailActions.CollectedStep | src/app/actions/email-actions.ts:108-127 | one loop step appends exactly what the next item contributes |
| EmailActions.CheckS3Emails | src/app/actions/email-actions.ts:95-137 | a failed listing gives `[]`; otherwise the result is the newest-first ordering of the collected messages, a permutation of them |
| EmailQuery.AddressPatternGroups | src/hooks/useEmailFromQuery.ts:44-49 | text matches `^(\d{6})(\d{3})@otm\.mec\.mejsh\.com$` exactly when it is six digits, three digits and the domain, with nothing before or after |
| EmailQuery.ValidateEmailAddress | src/hooks/useEmailFromQuery.ts:42-58 | only text matching `^\d{6}\d{3}@otm\.mec\.mejsh\.com$` is accepted, and such text is accepted exactly when its first six digits are today's stamp |
| EmailQuery.ValidIsGenerated | src/hooks/useEmailFromQuery.ts:42-58 | every accepted address is the generator's address for today with some sequence below 1000 |
| EmailQuery.GeneratedIsValid | src/hooks/useEmailFromQuery.ts:42-58 | every address the generator produces today is accepted today |
| EmailQuery.ValidExactlyWhenGenerated | src/hooks/useEmailFromQuery.ts:42-58 | an address is accepted exactly when the generator could have produced it today |
| EmailQuery.OtherDayInvalid | src/hooks/useEmailFromQuery.ts:42-58 | an address generated on another day is non-empty and rejected |
| Host.TextToBase64 | src/hooks/useEmailFromQuery.ts:26 | `Buffer.from(email, 'utf-8').toString('base64')` decodes back to the UTF-8 bytes of the text and has 4 * ceil(n / 3) characters for n bytes |
| Base64.Encode | src/hooks/useEmailFromQuery.ts:26 | base64 of n bytes is 4 * ceil(n / 3) characters |
| Base64.EncodeAlphabet | src/hooks/useEmailFromQuery.ts:26 | every encoded character is in the RFC 4648 alphabet or is `=` |
| Base64.DecodeEncode | src/hooks/useEmailFromQuery.ts:14-26 | decoding base64 text that was written from bytes gives those bytes back |
| Base64.EncodeDecode | src/hooks/useEmailFromQuery.ts:14 | text the strict decoder accepts is canonical: it is the encoding of the bytes it decodes to |
| Host.TextBase64RoundTrip | src/hooks/useEmailFromQuery.ts:14-26 | text written as base64 of its UTF-8 bytes reads back, whenever the UTF-8 codec round-trips it |
| EmailQuery.GetEmailFromQuery | src/hooks/useEmailFromQuery.ts:10-22 | null exactly when the parameter is absent or empty; otherwise it is the base64-to-UTF-8 reading of the parameter |
| EmailQuery.SetEmailToQuery | src/hooks/useEmailFromQuery.ts:24-33 | the written value decodes to the address's UTF-8 bytes, uses only the base64 alphabet, and is empty exactly when those bytes are |
| EmailQuery.QueryRoundTrip | src/hooks/useEmailFromQuery.ts:10-33 | an address written to the query reads back unchanged |
| EmailQuery.GetValidatedEmailFromQuery | src/hooks/useEmailFromQuery.ts:60-75 | three cases. No query address: null, no redirect. An invalid address: null and a redirect to `/`. A valid one: that address, no redirect |
| EmailQuery.GeneratedAddressAcceptedSameDay | src/hooks/useEmailFromQuery.ts:60-75 | an address generated today, written to the query and read back today, is accepted without a redirect |
| EmailQuery.OtherDayAddressRedirects | src/hooks/useEmailFromQuery.ts:60-75 | an address generated on another day, read back today, yields null and a redirect to `/` |

## Left out

- Storage and network: the listing, `getUrl`, `fetch` and the database calls in `createEmailAddress` and `checkEmailAddressExists` are I/O behind libraries. The scan takes the listing and a `Store` of functions (fetch text, library parse, new id) as parameters. Its `await`s are sequential and modelled as plain calls.
- The s3-utils copy of `checkS3Emails`: only its final sort (`S3Utils.SortNewestFirst`) is modelled. Its loop is the same as the one modelled in `EmailActions.CheckS3Emails`, but it uses the manual parser.
- Mail library internals: `simpleParser` is an opaque `Option<ParsedMail>`, with `None` when it throws.
- Dates: `new Date()` is `Runtime.now`, and `new Date(text)` is `Runtime.parseDate`, with `None` for an Invalid Date. A receipt time is kept as the instant its `toISOString` text denotes. The ISO rendering, and the sort's re-parse of it, are not modelled. The mail action reads the clock per message; the model uses one `now` for the whole scan.
- Randomness: `generateId` and `Math.random` are left out. The id is a parameter (`Store.newId`), and the address sequence is a parameter below 1000.
- Buffer: the reading of malformed base64 and the UTF-8 codec are abstract functions of the `Runtime`. Base64 is verified only for canonical text.
- `toLowerCase` is modelled on ASCII letters only. No other character lower-cases into a letter of `base64`, so the flag does not change.
- `clearEmailFromQuery`, the `URLSearchParams` percent-encoding, and `router.replace`/`router.push` are browser side effects. The redirect is the `redirectHome` flag of `QueryOutcome`.
- Timers, polling and all React components and state hooks are presentation.
- Calendar.Stamp: a year below 10 is not covered by the contract. The generator and validator lemmas assume years from 10 on.
- EmailActions.GenerateEmailAddress: the function has no contract of its own. `EmailActions.GeneratedAddressShape` states what it builds.
- A listing whose `items` is missing is an empty list of items, as the `if (listResult.items)` test makes it.
