# Video catalog function app: a verified model of its request handling

The app is a pair of Azure Functions over a blob container of videos.
`UploadVideo` accepts a `multipart/form-data` POST (RFC 7578, with the
boundary parameter of section 5.1.1 of RFC 2046) and reads its sections in
order. The first section that is over the size limit or carries a file
decides: an oversize section gives 400, a file whose name does not end in
`.mp4` gives 400, and otherwise that file is stored as a blob.
`ListVideos` reports each blob of the container as a `{FileName, FileSize}`
record. Both resolve their configuration through
`ConfigurationHelper`: two setting names, two secret lookups, and a
megabyte limit that is converted to bytes in 32-bit `int` arithmetic.

The model is written as the code is:

- `configuration.dfy` holds the pure guard chain of `GetConfigurationAsync`. It
  returns the resolved pair together with the secret names it asked the vault
  for, in order, so that "no lookup" and "container secret first" can be
  stated. `GetMaxFileSize` is modelled as `int.Parse` followed by the
  wrapping product.
- `int32.dfy` models C# `int`: its range, unchecked wrap-around modulo 2^32,
  and `int.Parse` with the default number style.
- `text.dfy` models the string operations the handlers call: ordinal
  `Contains`, `OrdinalIgnoreCase` equality and `EndsWith`, and `Trim('"')`.
- `multipart.dfy` holds what .NET's header parsers and ASP.NET's
  `MultipartReader` deliver: the Content-Type parameters, each section's
  parsed Content-Disposition, and the forward-only reader. The reader is a `SectionStream` object whose `position` counts the
  sections pulled from it.
- `upload.dfy` models `UploadVideoFunction.Run` as a method. It runs the
  guards in order and hands over to `ReadSections`, the `while` loop over the
  reader; the body of the loop for the section that decides the outcome is
  the method `Decide`. The blob store is a `BlobAccount` object whose
  containers map blob names to contents, and the method writes it with
  overwrite semantics. Exceptions that `Run` does not catch become
  `Threw(fault)`.
- `listfiles.dfy` models `ListFilesFunction.Run` as a method. It runs the
  guards, then a loop that builds the `files` sequence. The catch-all turns
  every failure into a 500 response that carries the message.

## Model

| member | source | states |
|---|---|---|
| `Utilities.FirstIndexWhere` | VideoCatalogFunctionApp/UploadVideo/UploadVideoFunction.cs:69-71 | FirstOrDefault with a predicate: the result is an index that matches with no match before it, or None exactly when nothing matches |
| `Utilities.FirstIndexWhereIgnoresSuffix` | VideoCatalogFunctionApp/UploadVideo/UploadVideoFunction.cs:69-71 | once a match exists, appending elements does not change the first match |
| `Text.Contains` | VideoCatalogFunctionApp/UploadVideo/UploadVideoFunction.cs:62 | ordinal Contains is true exactly when the text occurs at some index |
| `Text.EndsWithIgnoreCaseAppend` | VideoCatalogFunctionApp/UploadVideo/UploadVideoFunction.cs:96 | any name whose last characters equal ".mp4" ignoring case passes the suffix test, whatever comes before |
| `Text.TrimQuotes` | VideoCatalogFunctionApp/UploadVideo/UploadVideoFunction.cs:95 | Trim('"') yields a contiguous part of the name with only quotes cut off on both sides, and it neither starts nor ends with a quote |
| `Text.TrimQuotesTrimmed` | VideoCatalogFunctionApp/UploadVideo/UploadVideoFunction.cs:95 | cutting the leading quotes and then the trailing quotes leaves a middle part of the name with only quotes outside it |
| `Text.SameCut` | VideoCatalogFunctionApp/UploadVideo/UploadVideoFunction.cs:95 | two cuts of the name that leave only quotes outside and non-quote ends (or nothing) are the same cut, or both leave nothing |
| `Text.QuoteTrimmedUnique` | VideoCatalogFunctionApp/UploadVideo/UploadVideoFunction.cs:95 | only one string satisfies that description, so the trimmed name is determined by it |
| `Text.TrimQuotesIdempotent` | VideoCatalogFunctionApp/UploadVideo/UploadVideoFunction.cs:95 | trimming an already trimmed name changes nothing |
| `Int32.Wrap` | VideoCatalogFunctionApp/Utilities/ConfigurationHelper.cs:78 | unchecked int arithmetic: the result is in the int range and congruent to the exact value modulo 2^32, and it is the exact value when that fits |
| `Int32.Parse` | VideoCatalogFunctionApp/Utilities/ConfigurationHelper.cs:77 | int.Parse: null gives ArgumentNull and nothing else does; a string that is not white space, an optional sign, one or more digits and white space gives FormatError; a parsed value is in the int range |
| `Int32.ParseNumeric` | VideoCatalogFunctionApp/Utilities/ConfigurationHelper.cs:77 | however a numeric string is cut into white space, sign, digits and white space, int.Parse yields the value of that sign and those digits when it is an int, and OverflowError otherwise |
| `Int32.NumericHasDigit` | VideoCatalogFunctionApp/Utilities/ConfigurationHelper.cs:77 | a numeric string contains a digit, so a string with no digit gives FormatError |
| `Int32.ParseRejectsUnit` | VideoCatalogFunctionApp/Utilities/ConfigurationHelper.cs:77 | a megabyte count written with a unit, "20MB", gives FormatError |
| `Int32.UnitNotNumeric` | VideoCatalogFunctionApp/Utilities/ConfigurationHelper.cs:77 | "20MB" is outside the grammar int.Parse accepts, so `MaxFileSizeNonNumeric` applies to it |
| `Int32.DecimalRoundTrip` | VideoCatalogFunctionApp/Utilities/ConfigurationHelper.cs:77 | the digits of a natural number read back to that number |
| `Int32.ParseFormat` | VideoCatalogFunctionApp/Utilities/ConfigurationHelper.cs:77 | every int written in decimal parses back to itself |
| `Configuration.GetConfiguration` | VideoCatalogFunctionApp/Utilities/ConfigurationHelper.cs:36-66 | a missing or empty setting name gives null with no lookup; the container secret is looked up first and a failure there ends the resolution; otherwise both are looked up; a pair results exactly when both values are non-empty, and it is (container value, connection value); lookup failures become null and never escape |
| `Configuration.MaxFileSizeBytes` | VideoCatalogFunctionApp/Utilities/ConfigurationHelper.cs:78 | MB * 1024 * 1024 in int: in the int range, congruent to MB * 1048576 modulo 2^32, and exactly MB * 1048576 for -2048 <= MB <= 2047 |
| `Configuration.GetMaxFileSize` | VideoCatalogFunctionApp/Utilities/ConfigurationHelper.cs:74-79 | a missing setting throws ArgumentNull; a limit it returns is an int |
| `Configuration.MaxFileSizeFromSetting` | VideoCatalogFunctionApp/Utilities/ConfigurationHelper.cs:77-78 | a setting holding MB in decimal, for -2048 <= MB <= 2047, yields exactly MB * 1048576 bytes |
| `Configuration.MaxFileSizeNonNumeric` | VideoCatalogFunctionApp/Utilities/ConfigurationHelper.cs:77 | a setting that int.Parse does not accept as a number ("20MB", "1.5", "2 048", "0x10") makes GetMaxFileSize fail with a FormatException |
| `Configuration.MaxFileSizeOfNumeric` | VideoCatalogFunctionApp/Utilities/ConfigurationHelper.cs:77-78 | a numeric setting yields the wrapped byte limit of the number it denotes, or an OverflowException when that number is not an int |
| `Configuration.MaxFileSizeMonotone` | VideoCatalogFunctionApp/Utilities/ConfigurationHelper.cs:78 | for 0 <= a < b <= 2047 the limit for a is below the limit for b |
| `Configuration.MaxFileSizeWraps` | VideoCatalogFunctionApp/Utilities/ConfigurationHelper.cs:78 | for 2048..4095 MB the int product wraps to MB * 1048576 - 2^32, a negative limit (2048 gives -2147483648) |
| `Multipart.FindBoundary` | VideoCatalogFunctionApp/UploadVideo/UploadVideoFunction.cs:68-71 | the boundary is the value of the first parameter named "boundary" ignoring case, and null when there is none |
| `Multipart.FindBoundaryFirstWins` | VideoCatalogFunctionApp/UploadVideo/UploadVideoFunction.cs:69-71 | parameters after the first boundary parameter cannot change the boundary |
| `Multipart.UploadName` | VideoCatalogFunctionApp/UploadVideo/UploadVideoFunction.cs:95 | the blob name is the file name with its surrounding quotes trimmed |
| `Multipart.SectionStream.constructor` | VideoCatalogFunctionApp/UploadVideo/UploadVideoFunction.cs:78 | a new reader starts before the first section |
| `Multipart.SectionStream.ReadNextSection` | VideoCatalogFunctionApp/UploadVideo/UploadVideoFunction.cs:82 | hands out the next section and advances, or at the end gives null or throws the body's failure without moving |
| `UploadVideo.BlobAccount.UploadBlob` | VideoCatalogFunctionApp/UploadVideo/UploadVideoFunction.cs:101-102 | the named blob of the container is created or replaced with the content; nothing else in the account changes |
| `UploadVideo.FirstDecisive` | VideoCatalogFunctionApp/UploadVideo/UploadVideoFunction.cs:82-93 | the deciding section is the first that is over the limit or bears a file; every section before it is neither |
| `UploadVideo.FirstDecisiveIgnoresLaterSections` | VideoCatalogFunctionApp/UploadVideo/UploadVideoFunction.cs:82-106 | sections after the deciding one cannot change which section decides |
| `UploadVideo.FirstDecisiveHere` | VideoCatalogFunctionApp/UploadVideo/UploadVideoFunction.cs:82-108 | with no deciding section before it, a section that decides is the first deciding one, and one that does not extends the undecided prefix |
| `UploadVideo.Decide` | VideoCatalogFunctionApp/UploadVideo/UploadVideoFunction.cs:85-106 | for the deciding section: a length above the limit gives 400 and writes nothing; otherwise a name not ending in .mp4 gives 400 and writes nothing; otherwise exactly that blob is written under the trimmed name with the section's content and the reply is 200 |
| `UploadVideo.ReadSections` | VideoCatalogFunctionApp/UploadVideo/UploadVideoFunction.cs:82-111 | sections are read in order up to the first deciding one and no further; that section settles the reply as Decide states; a size setting that does not parse throws at the first section; with no deciding section every section is read, nothing is written, and the reply is 400 "No valid file data in request." or the reader's exception |
| `UploadVideo.Run` | VideoCatalogFunctionApp/UploadVideo/UploadVideoFunction.cs:37-112 | guards in order: no config gives 500; a missing container gives 404; an absent Content-Type header throws; a first Content-Type value that is null, empty or without "multipart/form-data" gives 400; an unparsable header throws; a missing boundary gives 400; until all pass, no section is read and the store is unchanged. In the loop the first deciding section settles the outcome and no later section is read. A length above the limit gives 400 (equal is accepted). A name that is not .mp4 gives 400. Otherwise exactly that blob is written, under the trimmed name with the section's content, and the reply is 200. With no deciding section every section is read, nothing is written, and the reply is 400 "No valid file data in request." or the reader's exception. A size setting that does not parse throws at the first section |
| `ListFiles.Run` | VideoCatalogFunctionApp/ListFilesFunction/ListFilesFunction.cs:38-84 | no config gives 500; a failing existence check gives 500 with its message; a missing container gives 404; otherwise one record per enumerated blob, in order, with the blob's name and its length or 0, and 200 (an empty container gives an empty list); an enumeration failure gives 500 with its message. Only the resolved container name is used |

## Left out

- Multipart and header wire parsing is library code and is not part of this model. This covers `MultipartReader`, `MediaTypeHeaderValue.Parse` and `ContentDispositionHeaderValue.TryParse`. Their results are inputs: the parameter list, or a parse exception; each section's disposition, or a failed TryParse; and the sequence of sections, ended by the end of the body or by a read exception.
- What `section.Body.Length` reports when the size check runs is decided by the reader library. Each section carries that number as an input beside its bytes.
- There is no streaming size guard: the code compares `Body.Length` with the limit once the reader hands a section over, and the model does the same.
- The header collection is not part of this model. The model takes its answer as an input: the Content-Type values, or None for an absent header, for which `HttpHeaders.GetValues` throws an `InvalidOperationException` that leaves `Run` as `Threw(HeaderMissingFault)`.
- Selecting the storage account by connection string (`new BlobServiceClient(connectionString)`, including its exception for a malformed string) is not modelled. `UploadVideo.Run` is given the account the resolved connection string designates.
- Storage failures during the upload itself (`UploadAsync` throwing) are not modelled. The write is taken as atomic, as the store promises. A storage outage is modelled only at the existence check.
- `ListFiles.Run` models an enumeration that fails part-way as failing after the blobs it yielded. The partial list is discarded either way, so the response is the same.
- The HTTP status the host gives an exception that escapes `UploadVideoFunction.Run` is not modelled. The model returns `Threw(fault)`.
- `Text.EqualsIgnoreCase` and `Text.EndsWithIgnoreCase` fold ASCII letters only. The invariant upper-case mapping that `OrdinalIgnoreCase` applies to other characters is not modelled.
- `Int32.Parse` reads the invariant culture's '+' and '-' signs. It does not model culture-specific sign symbols, or the trailing NUL characters .NET accepts.
- KeyVaultHelper.cs is reduced to a pure function from secret name to a value or a failure message. Its logging and rethrow are left out.
- Program.cs (host and dependency bootstrap) is not part of this model.
- Logging, async scheduling, concurrency between requests, and JSON or text serialisation of responses are left out.

## Behaviour of the code worth knowing

- the size limit is a check made after the fact, not a streaming counter;
- a failed secret lookup becomes "no configuration" (null) instead of a distinct error;
- the container's existence is checked before the Content-Type and boundary are checked;
- the listing keeps the store's enumeration order.
