# dmarc-stats in Dafny

A verified model of the core of dmarc-stats. The program downloads DMARC aggregate-report
emails from an IMAP folder, extracts the XML report attached to each one, and keeps the
reports in a local directory. The model covers:

- **The attachment classifier** (`Messages`, on top of `Mime`). The current version is in
  `MsgInfo`. It walks a message's MIME content tree: multipart, base64 binary, text, or
  anything else.
  - A binary node goes the zip route when its type matches `application/zip` or its file
    extension is `zip`.
  - It goes the gzip route when its type is `application/gzip` or `application/octet-stream`
    and its extension is `gz`.
  - Any other binary node is an error.
  - Zip entries must all be `.xml`. Payloads are collected in document order, and a message
    must yield exactly one.
  - The walk is a specification function (`XmlParts`). The Java accumulator walk is a method
    (`GetXmlParts`) that appends to a list object and is proved equal to it.
- **The earlier classifier** (`Legacy`). `App.unpack` and `MessageDownloader.unpack` are
  identical code, so the model defines them once.
  - It also records text bodies, in a three-argument `MsgInfo` whose part lists grow.
  - Its XML side is proved equal to the current classifier.
  - `UnpackMessages` is the per-message loop of `App.downloadMsgInfo` and
    `MessageDownloader.download`: one `MsgInfo` per message, in order, and the first error
    aborts.
- **The command line** (`App`): the four-argument check, the usage text, the exit-code
  mapping of `main`, and the unseen-message selection.
- **The folder query** (`Downloader`): `buildFilter` and the choice between the whole folder
  and a received-on-or-after search. The cutoff passes through `Instant.ofEpochSecond`, which
  rejects seconds outside Instant's range, and `Date.from`, which rejects an instant whose
  milliseconds overflow a long; both exceptions are modelled.
- **The report store** (`ReportStore`). It covers:
  - constructor validation and directory creation;
  - the storage name `dmarc-<id>.xml` and the `dmarc-*.xml` glob;
  - the all-or-nothing load;
  - the watermark `getLatestReportTime`;
  - `getAllReports`: stored reports, then each new report written, then the lists appended.

  The directory is a map from file name to entry. A report is reduced to `(reportId, end)`.
- **The namespace translator** (`NamespaceTranslator`). `addTranslation` maintains the table.
  The recursive rename changes DOM nodes in place, modelled as a class whose only mutable
  field is the namespace URI.
- **The validators** (`Util`): `requireNonBlank`, `isNonBlank` and `nullToEmpty`.
- **Supporting modules**: `JavaString` models the `String`/`Character` operations used
  (`isWhitespace`, `strip`, `isBlank`, `lastIndexOf`, `toLowerCase`, joining). `Seqs` is
  order-preserving filtering.

Mail access, decompression and XML binding are outside the model. Messages are values of a
`Message` datatype, and a folder is a sequence of them. The zip and gzip decoders are function
fields of a `Codecs` value, and each may fail. The mailbox download used by `getAllReports` is
a function parameter.

In these places the model follows the code as written:

- A bad message aborts the whole download; nothing skips it and continues.
- The command line takes exactly four arguments (host, user, password, folder) and no
  storage directory.
- The merged report list is not deduplicated by report id.
- Without a watermark, `MessageDownloader.download` takes every message in the folder, not
  only unread ones. `App.downloadMsgInfo` selects the unread ones.

## Model

| member | source | states |
|---|---|---|
| JavaString.Strip | src/main/java/mobi/emmons/dmarc_stats/Util.java:19 | String.strip: the result is a slice s[i..j] of the input with only whitespace before i and from j on; neither end of it is whitespace; it is empty exactly when the input is blank |
| JavaString.StripInfix | src/main/java/mobi/emmons/dmarc_stats/Util.java:19 | stripping the leading and then the trailing whitespace leaves a slice of the input with only whitespace outside it, no whitespace at its ends, and nothing exactly when the input is blank |
| JavaString.LastIndexOf | src/main/java/mobi/emmons/dmarc_stats/MsgInfo.java:152 | lastIndexOf('.'): -1 or an index holding the character, with no occurrence after it |
| JavaString.Join | src/main/java/mobi/emmons/dmarc_stats/MsgInfo.java:54 | Collectors.joining: nothing gives "", one item gives that item |
| JavaString.JoinSnoc | src/main/java/mobi/emmons/dmarc_stats/MsgInfo.java:54 | one more item adds the separator and the item at the end |
| JavaString.JoinEnds | src/main/java/mobi/emmons/dmarc_stats/MsgInfo.java:54 | a joined non-empty list starts with its first item and ends with its last |
| JavaString.LowerChar | src/main/java/mobi/emmons/dmarc_stats/MsgInfo.java:155 | Character.toLowerCase on ASCII: 'A'..'Z' go to 'a'..'z', every other character is kept |
| JavaString.ToLower | src/main/java/mobi/emmons/dmarc_stats/MsgInfo.java:155 | toLowerCase keeps the length and lower-cases each character on its own, at the same position |
| Util.RequireNonBlank | src/main/java/mobi/emmons/dmarc_stats/Util.java:6-12 | succeeds exactly when isNonBlank holds; then it returns the argument unchanged; otherwise IllegalArgumentException "Parameter <name> must not be blank" |
| Util.BlankMessageInjective | src/main/java/mobi/emmons/dmarc_stats/Util.java:8-9 | two parameter names give the same message iff they are equal, so the message identifies the parameter |
| Util.IsNonBlank | src/main/java/mobi/emmons/dmarc_stats/Util.java:14-16 | true exactly when the argument is present and holds a non-whitespace character |
| Util.NullToEmpty | src/main/java/mobi/emmons/dmarc_stats/Util.java:18-20 | null gives ""; otherwise a slice of the argument with only whitespace cut off either side, and no whitespace at either end |
| Util.StripOfStripped | src/main/java/mobi/emmons/dmarc_stats/Util.java:19 | a string with no whitespace at either end is its own strip |
| Util.NullToEmptyIdempotent | src/main/java/mobi/emmons/dmarc_stats/Util.java:18-20 | nullToEmpty applied twice equals nullToEmpty applied once |
| Util.NonBlankIffNonEmpty | src/main/java/mobi/emmons/dmarc_stats/Util.java:14-20 | isNonBlank(s) holds exactly when nullToEmpty(s) is non-empty |
| Util.Examples | src/main/java/mobi/emmons/dmarc_stats/Util.java:6-20 | null, "" and whitespace-only are blank, " a " is not; nullToEmpty(null) is ""; requireNonBlank returns a non-blank argument |
| Mime.FileExt | src/main/java/mobi/emmons/dmarc_stats/MsgInfo.java:148-157 | no extension exactly when the name is null, empty or has no '.' |
| Mime.FileExtIsTextAfterLastDot | src/main/java/mobi/emmons/dmarc_stats/MsgInfo.java:152-155 | the extension is the lower-cased text after a '.' that has no '.' after it |
| Mime.LastDotBeforeExt | src/main/java/mobi/emmons/dmarc_stats/MsgInfo.java:152 | in stem + "." + ext, with no '.' in ext, the last '.' is the one before ext |
| Mime.FileExtOfName | src/main/java/mobi/emmons/dmarc_stats/MsgInfo.java:148-157 | the extension of stem + "." + ext is ext lower-cased, whatever the stem holds |
| Mime.LowerCaseXml | src/main/java/mobi/emmons/dmarc_stats/MsgInfo.java:155 | "XML" lower-cases to "xml" |
| Mime.FileExtOfUpperCaseName | src/main/java/mobi/emmons/dmarc_stats/MsgInfo.java:148-157 | "a.b.XML" has extension "xml" |
| Mime.FileExtOfTrailingDot | src/main/java/mobi/emmons/dmarc_stats/MsgInfo.java:152-155 | "report." has the empty extension |
| Mime.FileExtAbsent | src/main/java/mobi/emmons/dmarc_stats/MsgInfo.java:149-154 | "README", "" and null have no extension |
| Mime.Classify | src/main/java/mobi/emmons/dmarc_stats/MsgInfo.java:80-88 | zip route iff the type matches application/zip or the extension is zip; gzip route iff not zip, the extension is gz and the type matches application/gzip or application/octet-stream |
| Mime.Matches | src/main/java/mobi/emmons/dmarc_stats/MsgInfo.java:80-82 | ContentType.match: every type matches itself, and a match needs primary types of equal length (they agree ignoring case) |
| Mime.ZipExtensionWins | src/main/java/mobi/emmons/dmarc_stats/MsgInfo.java:80-82 | a name ending in .zip goes the zip route under any type, and so does extension zip under application/gzip |
| Mime.TrailingDotSelectsNothing | src/main/java/mobi/emmons/dmarc_stats/MsgInfo.java:80-87 | the empty extension of "report." selects no route unless the type is zip |
| Messages.SingleXmlPart | src/main/java/mobi/emmons/dmarc_stats/MsgInfo.java:61-69 | succeeds iff there is exactly one payload and returns it; zero gives "No XML file found", more than one gives the "more than one" error with the count |
| Messages.NewMsgInfo | src/main/java/mobi/emmons/dmarc_stats/MsgInfo.java:34-40 | a record exists iff the sender array and sent date are present and getXmlPart succeeds; its fields are the message number, the joined non-null senders, the subject, the sent date and the single payload; a null sender array throws NullPointerException first, then a null sent date, then getXmlPart's exception |
| Messages.FromOf | src/main/java/mobi/emmons/dmarc_stats/MsgInfo.java:50-55 | getFrom throws NullPointerException exactly when the address array is null; null addresses inside it never make it fail (their joining is FromJoinsNonNull) |
| Messages.XmlPartOf | src/main/java/mobi/emmons/dmarc_stats/MsgInfo.java:58-70 | getXmlPart returns a payload exactly when the walk yields one payload, and then that payload; a failing walk's exception passes through |
| Messages.XmlParts | src/main/java/mobi/emmons/dmarc_stats/MsgInfo.java:72-95 | the specification of getXmlParts; its only modelled failures are the unchecked UnexpectedMessageFormatException, or IOException from decoding |
| Messages.PartsXml | src/main/java/mobi/emmons/dmarc_stats/MsgInfo.java:74-78 | the multipart loop, child by child; its failures too are UnexpectedMessageFormatException or IOException |
| Messages.ZipEntriesXml | src/main/java/mobi/emmons/dmarc_stats/MsgInfo.java:102-115 | the specification of decodeZipAttachment's entry loop; its only failure is the non-xml entry one |
| Messages.IsXmlEntry | src/main/java/mobi/emmons/dmarc_stats/MsgInfo.java:107-108 | an entry counts as XML only if its name has a '.' (its extension is xml) |
| Messages.EntryXml | src/main/java/mobi/emmons/dmarc_stats/MsgInfo.java:107-113 | an xml entry contributes exactly its text; any other throws UnexpectedMessageFormatException naming its extension |
| Messages.ZipXml | src/main/java/mobi/emmons/dmarc_stats/MsgInfo.java:97-117 | the zip route throws UnexpectedMessageFormatException or IOException only |
| Messages.PartsXmlAppend | src/main/java/mobi/emmons/dmarc_stats/MsgInfo.java:74-78 | the payloads of a multipart are its children's payloads concatenated in child order, and the first failing child's error is the multipart's |
| Messages.SinglePart | src/main/java/mobi/emmons/dmarc_stats/MsgInfo.java:75-77 | a one-part multipart yields exactly what its part's content yields |
| Messages.TextPartIsIgnored | src/main/java/mobi/emmons/dmarc_stats/MsgInfo.java:89-90 | inserting a text part anywhere in a multipart changes neither the payloads nor the error |
| Messages.ZipEntriesXmlSuccess | src/main/java/mobi/emmons/dmarc_stats/MsgInfo.java:102-115 | the entries give payloads iff every entry is .xml, and the payloads are then the entries' texts in entry order |
| Messages.ZipEntriesXmlFirstFailure | src/main/java/mobi/emmons/dmarc_stats/MsgInfo.java:107-113 | with a non-xml entry, the error is the one naming the first such entry's extension |
| Messages.EmptyZipAddsNothing | src/main/java/mobi/emmons/dmarc_stats/MsgInfo.java:102-106 | an empty zip adds no payload; a read that breaks off is an IOException |
| Messages.GzipAddsOne | src/main/java/mobi/emmons/dmarc_stats/MsgInfo.java:82-83 | the gzip route adds exactly the one decompressed text |
| Messages.UnknownBinaryRejected | src/main/java/mobi/emmons/dmarc_stats/MsgInfo.java:84-88 | a binary node with no route is UnexpectedMessageFormat naming its base type and extension |
| Messages.SingleGzipAttachment | src/main/java/mobi/emmons/dmarc_stats/MsgInfo.java:58-70 | a message of a text body and one gzip'd report yields exactly that report |
| Messages.ZeroAndManyAreDistinct | src/main/java/mobi/emmons/dmarc_stats/MsgInfo.java:61-67 | no payload and two payloads are both errors, and different ones |
| Messages.NonNullAppend | src/main/java/mobi/emmons/dmarc_stats/MsgInfo.java:51-53 | dropping null addresses distributes over concatenation, so order is kept |
| Messages.FromJoinsNonNull | src/main/java/mobi/emmons/dmarc_stats/MsgInfo.java:50-55 | getFrom skips a null address and puts ", " between the remaining addresses in order |
| Messages.XmlPartList.constructor | src/main/java/mobi/emmons/dmarc_stats/MsgInfo.java:59 | the list starts empty |
| Messages.XmlPartList.Add | src/main/java/mobi/emmons/dmarc_stats/MsgInfo.java:83 | add appends one element and changes nothing else |
| Messages.GetXmlParts | src/main/java/mobi/emmons/dmarc_stats/MsgInfo.java:72-95 | the walk returns normally iff the specification succeeds; the list then gains exactly the specified payloads; otherwise the exception is the specified one |
| Messages.PartsStep | src/main/java/mobi/emmons/dmarc_stats/MsgInfo.java:74-78 | one more body part extends the payloads by its own, or its error is the whole multipart's |
| Messages.DecodeZipAttachment | src/main/java/mobi/emmons/dmarc_stats/MsgInfo.java:97-117 | the entry loop appends exactly the zip route's payloads, or throws its error |
| Messages.ZipStep | src/main/java/mobi/emmons/dmarc_stats/MsgInfo.java:107-113 | one more .xml entry extends the payloads by its text; any other entry is the whole zip's error, naming its extension |
| Messages.ZipPrefixFailure | src/main/java/mobi/emmons/dmarc_stats/MsgInfo.java:111-113 | once a prefix of the entries fails, the whole zip fails with that error |
| Messages.GetXmlPart | src/main/java/mobi/emmons/dmarc_stats/MsgInfo.java:58-70 | the accumulator walk followed by the size check equals the specification getXmlPart |
| Legacy.UnpackAgreesWithMsgInfo | src/main/java/mobi/emmons/dmarc_stats/App.java:141-164 | node for node, unpack collects the same XML payloads and throws the same errors as MsgInfo's classifier |
| Legacy.Unpack | src/main/java/mobi/emmons/dmarc_stats/App.java:141-164 | unpack, as a specification; it throws only UnexpectedMessageFormatException or IOException (the rest is UnpackAgreesWithMsgInfo and TextIsBody) |
| Legacy.UnpackParts | src/main/java/mobi/emmons/dmarc_stats/App.java:143-147 | the multipart loop of unpack, child by child; its failures too are UnexpectedMessageFormatException or IOException |
| Legacy.UnpackPartsAgreesWithMsgInfo | src/main/java/mobi/emmons/dmarc_stats/App.java:143-147 | the same agreement for a multipart's list of parts |
| Legacy.UnpackPartsAppend | src/main/java/mobi/emmons/dmarc_stats/App.java:143-147 | payloads and bodies of a multipart are its children's, concatenated in child order; the first failing child's error wins |
| Legacy.UnpackPartsStep | src/main/java/mobi/emmons/dmarc_stats/App.java:143-147 | one more body part extends payloads and bodies by its own, or its error is the whole multipart's |
| Legacy.TextIsBody | src/main/java/mobi/emmons/dmarc_stats/MessageDownloader.java:106-107 | a text part adds its text as one body part at the end and no payload |
| Legacy.LegacyFrom | src/main/java/mobi/emmons/dmarc_stats/App.java:127-129 | the loop's sender string throws NullPointerException exactly when the array or one of its addresses is null, and otherwise equals MsgInfo.getFrom's |
| Legacy.DownloadedOf | src/main/java/mobi/emmons/dmarc_stats/App.java:127-134 | one loop step succeeds iff the sender string, the sent date and unpack do; the errors come in that order; the record holds the sender string, subject, time, payloads and bodies |
| Legacy.DownloadAll | src/main/java/mobi/emmons/dmarc_stats/App.java:126-135 | a successful download has one entry per message |
| Legacy.DownloadAllSpec | src/main/java/mobi/emmons/dmarc_stats/App.java:126-135 | the download succeeds iff every message unpacks, and entry i is then message i's sender, subject, time, payloads and bodies |
| Legacy.DownloadAllPrefixFailure | src/main/java/mobi/emmons/dmarc_stats/MessageDownloader.java:66-78 | a failing message aborts the whole download with its error, whatever follows it |
| Legacy.DownloadStep | src/main/java/mobi/emmons/dmarc_stats/App.java:126-135 | one more message extends the list by its entry, or its error aborts the whole loop |
| Legacy.LegacyMsgInfo.constructor | src/main/java/mobi/emmons/dmarc_stats/App.java:132 | sender, subject and time as given, both part lists empty |
| Legacy.LegacyMsgInfo.AddXmlPart | src/main/java/mobi/emmons/dmarc_stats/App.java:178 | appends to the XML parts, bodies unchanged |
| Legacy.LegacyMsgInfo.AddBodyPart | src/main/java/mobi/emmons/dmarc_stats/App.java:159 | appends to the body parts, XML parts unchanged |
| Legacy.UnpackInto | src/main/java/mobi/emmons/dmarc_stats/App.java:141-164 | returns normally iff the specification succeeds; the msgInfo then gains exactly its payloads and bodies; otherwise the exception is the specified one |
| Legacy.UnpackPartsInto | src/main/java/mobi/emmons/dmarc_stats/App.java:143-147 | the multipart loop returns normally iff the specification of the parts succeeds; the msgInfo then gains exactly their payloads and bodies; otherwise the first failing part's exception |
| Legacy.DecodeZipAttachment | src/main/java/mobi/emmons/dmarc_stats/MessageDownloader.java:114-134 | appends exactly the zip route's payloads to the XML parts, bodies unchanged, or throws its error |
| Legacy.DecodeGZipAttachment | src/main/java/mobi/emmons/dmarc_stats/App.java:188-195 | appends the one decompressed text, or throws IOException |
| Legacy.UnpackMessages | src/main/java/mobi/emmons/dmarc_stats/App.java:126-135 | a list exactly when the specified download succeeds, one MsgInfo per message in order whose contents are the specified entry, each a new object distinct from the others; otherwise the specified error |
| App.NewApp | src/main/java/mobi/emmons/dmarc_stats/App.java:76-87 | succeeds iff there are exactly four arguments; fewer gives "Too few arguments", more "Too many arguments"; host, user, password, folder are arguments 0..3 |
| App.NewAppInverse | src/main/java/mobi/emmons/dmarc_stats/App.java:83-86 | construction from a configuration's four fields gives that configuration back |
| App.Usage | src/main/java/mobi/emmons/dmarc_stats/App.java:66-74 | the text starts with a line break and ends with the usage line naming mobi.emmons.dmarc_stats.App |
| App.UsageGuard | src/main/java/mobi/emmons/dmarc_stats/App.java:69-71 | the message follows the first line break when it is non-null and non-empty, and otherwise nothing but the usage line is printed |
| App.Main | src/main/java/mobi/emmons/dmarc_stats/App.java:53-64 | the status is 0, -1 or -2; 0 iff construction and run both succeed; usage is printed iff the status is -2 |
| App.ArityErrorExit | src/main/java/mobi/emmons/dmarc_stats/App.java:53-59 | a wrong argument count exits -2 after printing usage with the reason, whatever run would do |
| App.RunFailureExit | src/main/java/mobi/emmons/dmarc_stats/App.java:60-63 | a run failure other than a command-line error exits -1 without usage |
| App.UnseenMessages | src/main/java/mobi/emmons/dmarc_stats/App.java:122-123 | the search result is exactly the folder's messages without the SEEN flag |
| App.Unseen | src/main/java/mobi/emmons/dmarc_stats/App.java:122-123 | FlagTerm(SEEN, false) matches exactly the messages without the SEEN flag |
| App.DownloadMsgInfo | src/main/java/mobi/emmons/dmarc_stats/App.java:107-139 | the per-message loop over the unseen messages, with its results and errors; the records are new and pairwise distinct objects |
| Downloader.BuildFilter | src/main/java/mobi/emmons/dmarc_stats/MessageDownloader.java:81-87 | succeeds exactly for cutoffs whose milliseconds fit a long (-9223372036854775..9223372036854775 seconds); null throws NullPointerException "fromTime", seconds past Instant's range throw DateTimeException, and a millisecond overflow throws IllegalArgumentException wrapping ArithmeticException "long overflow"; the term matches exactly the messages received at or after the cutoff |
| Downloader.TermMatches | src/main/java/mobi/emmons/dmarc_stats/MessageDownloader.java:83-84 | a message without a received date never matches; one with a date matches iff it is at or after the cutoff |
| Downloader.Search | src/main/java/mobi/emmons/dmarc_stats/MessageDownloader.java:64 | the search result is exactly the folder's messages the term matches |
| Downloader.SelectMessages | src/main/java/mobi/emmons/dmarc_stats/MessageDownloader.java:62-64 | null selects the whole folder; a cutoff buildFilter rejects gives its exception; otherwise exactly the messages received at or after the cutoff |
| Downloader.SearchKeepsOrder | src/main/java/mobi/emmons/dmarc_stats/MessageDownloader.java:62-64 | the date selection of a concatenated folder fails exactly when the selections of its halves do, and is otherwise their concatenation, so folder order is kept |
| Downloader.EarlyCutoffSelectsAll | src/main/java/mobi/emmons/dmarc_stats/MessageDownloader.java:81-87 | an accepted cutoff no later than every received date selects the whole folder, in order |
| Downloader.Download | src/main/java/mobi/emmons/dmarc_stats/MessageDownloader.java:47-87 | buildFilter's exception before any message is read; otherwise the per-message loop over the selected messages, with its results and errors; the records are new and pairwise distinct objects |
| ReportStore.ValidateConfig | src/main/java/mobi/emmons/dmarc_stats/DmarcReportStore.java:39-43 | succeeds iff the directory is non-null and all four credentials are non-blank; a null directory is reported first with NullPointerException, then a blank host, user, password and folder in that order, each with IllegalArgumentException naming that parameter |
| ReportStore.BlankFolderReported | src/main/java/mobi/emmons/dmarc_stats/DmarcReportStore.java:43 | a blank folder is reported under the name emailFolder |
| ReportStore.StorageFileName | src/main/java/mobi/emmons/dmarc_stats/DmarcReportStore.java:115-116 | the name is "dmarc-", the id and ".xml", and the id can be read back from it |
| ReportStore.StorageFileNameInjective | src/main/java/mobi/emmons/dmarc_stats/DmarcReportStore.java:115-116 | two ids share a file iff they are equal |
| ReportStore.StorageFileNameMatchesGlob | src/main/java/mobi/emmons/dmarc_stats/DmarcReportStore.java:65 | a storage name passes the dmarc-*.xml glob iff the id has no '/' |
| ReportStore.GlobMatches | src/main/java/mobi/emmons/dmarc_stats/DmarcReportStore.java:65-67 | every path the glob accepts is the storage name of the id between `dmarc-` and `.xml` |
| ReportStore.FilePath | src/main/java/mobi/emmons/dmarc_stats/DmarcReportStore.java:69 | the path Files.find reports: the bare name in the current directory, otherwise the directory, a '/', and the name |
| ReportStore.ParseAll | src/main/java/mobi/emmons/dmarc_stats/DmarcReportStore.java:70-73 | parsing succeeds iff every listed file parses, giving their reports in list order; otherwise it fails |
| ReportStore.SelectedNames | src/main/java/mobi/emmons/dmarc_stats/DmarcReportStore.java:66-68 | the names found are exactly the listed regular files whose name passes the glob |
| ReportStore.Selected | src/main/java/mobi/emmons/dmarc_stats/DmarcReportStore.java:65-68 | a selected entry is listed, is a storage file name, and is never a sub-directory |
| ReportStore.LoadSpec | src/main/java/mobi/emmons/dmarc_stats/DmarcReportStore.java:63-76 | the load fails iff a matching regular file does not parse; otherwise its reports are exactly those of the matching files |
| ReportStore.Load | src/main/java/mobi/emmons/dmarc_stats/DmarcReportStore.java:63-76 | the corrected load; an unparsable matching file gives IllegalStateException (the rest is LoadSpec) |
| ReportStore.LoadAsWritten | src/main/java/mobi/emmons/dmarc_stats/DmarcReportStore.java:63-76 | the load as written; its only failure is the IllegalStateException of an unparsable file |
| ReportStore.LoadAsWrittenInCurrentDirectory | src/main/java/mobi/emmons/dmarc_stats/DmarcReportStore.java:65-69 | with the current directory as storage directory the load as written is the corrected load |
| ReportStore.LoadOfOne | src/main/java/mobi/emmons/dmarc_stats/DmarcReportStore.java:63-76 | a listing of one matching report file loads exactly that report |
| ReportStore.SelectedNamesAsWritten | src/main/java/mobi/emmons/dmarc_stats/DmarcReportStore.java:66-68 | as written, the names found are the regular files whose whole path passes the glob |
| ReportStore.SelectedAsWritten | src/main/java/mobi/emmons/dmarc_stats/DmarcReportStore.java:65-68 | as written, the current directory selects what the corrected test selects, and a named directory selects nothing |
| ReportStore.PathNeverMatches | src/main/java/mobi/emmons/dmarc_stats/DmarcReportStore.java:67 | a path with a separator after a non-empty directory never passes the glob |
| ReportStore.LoadAsWrittenFindsNothing | src/main/java/mobi/emmons/dmarc_stats/DmarcReportStore.java:65-73 | as written, a named storage directory always loads the empty list |
| ReportStore.StoredReportIsMissed | src/main/java/mobi/emmons/dmarc_stats/DmarcReportStore.java:65-73 | one stored report is loaded by the corrected glob and missed as written |
| ReportStore.LatestReportTime | src/main/java/mobi/emmons/dmarc_stats/DmarcReportStore.java:95-103 | null iff there are no reports; otherwise an upper bound of every end that some report attains |
| ReportStore.LatestReportTimeOfAppend | src/main/java/mobi/emmons/dmarc_stats/DmarcReportStore.java:95-103 | the watermark does not depend on the order of the reports |
| ReportStore.WriteAll | src/main/java/mobi/emmons/dmarc_stats/DmarcReportStore.java:57 | after the writes, the files are the old ones plus one storage name per written report |
| ReportStore.LaterWriteWins | src/main/java/mobi/emmons/dmarc_stats/DmarcReportStore.java:115-118 | a report's file holds the last report written with its id |
| ReportStore.WriteAllKeepsOthers | src/main/java/mobi/emmons/dmarc_stats/DmarcReportStore.java:113-118 | files no report is written to keep their contents |
| ReportStore.StreamToList | src/main/java/mobi/emmons/dmarc_stats/DmarcReportStore.java:73 | Stream.toList gives the items as an unmodifiable list |
| ReportStore.AddAll | src/main/java/mobi/emmons/dmarc_stats/DmarcReportStore.java:58 | addAll appends iff the list is modifiable, else UnsupportedOperationException |
| ReportStore.MergeAsWrittenThrows | src/main/java/mobi/emmons/dmarc_stats/DmarcReportStore.java:58 | appending to the load's list throws; appending to a modifiable copy gives stored then new |
| ReportStore.DmarcReportStore.Init | src/main/java/mobi/emmons/dmarc_stats/DmarcReportStore.java:39-43 | the fields are set from the validated configuration and directory contents |
| ReportStore.DmarcReportStore.Open | src/main/java/mobi/emmons/dmarc_stats/DmarcReportStore.java:37-50 | a store exists iff validation passes and the path is not a regular file; a missing directory starts empty; validation errors come before the directory check |
| ReportStore.DmarcReportStore.WriteReportToStorage | src/main/java/mobi/emmons/dmarc_stats/DmarcReportStore.java:113-122 | the report replaces the contents of its storage file, nothing else changes |
| ReportStore.DmarcReportStore.WriteReports | src/main/java/mobi/emmons/dmarc_stats/DmarcReportStore.java:57 | the directory after the loop is the in-order writes of all new reports |
| ReportStore.DmarcReportStore.GetAllReports | src/main/java/mobi/emmons/dmarc_stats/DmarcReportStore.java:52-61 | without update: the load, nothing written; with update: download after the watermark, write every new report, return stored then new; a failed load or download writes nothing |
| ReportStore.DmarcReportStore.GetAllReportsAsWritten | src/main/java/mobi/emmons/dmarc_stats/DmarcReportStore.java:52-61 | as written: whole-path load; without update, or when the load fails, its result and no file written; with update a failing download's error and no file written; otherwise the new reports are written and the result is UnsupportedOperationException |
| NamespaceTranslator.Renamed | src/main/java/mobi/emmons/dmarc_stats/XmlNamespaceTranslator.java:45 | renaming to a URI leaves a namespace looked up under that URI, never the empty string |
| NamespaceTranslator.LookupKey | src/main/java/mobi/emmons/dmarc_stats/XmlNamespaceTranslator.java:38 | the key is "" exactly for no namespace or the empty one, otherwise the namespace itself |
| NamespaceTranslator.Translated | src/main/java/mobi/emmons/dmarc_stats/XmlNamespaceTranslator.java:36-46 | a non-candidate or a namespace absent from the table is unchanged; otherwise the node ends in the table's target for its namespace ("" for none) |
| NamespaceTranslator.PrefixedDeclarationKept | src/main/java/mobi/emmons/dmarc_stats/XmlNamespaceTranslator.java:36 | an xmlns:-prefixed attribute keeps its namespace, whatever the table says |
| NamespaceTranslator.DefaultDeclarationIsCandidate | src/main/java/mobi/emmons/dmarc_stats/XmlNamespaceTranslator.java:36-37 | a plain xmlns attribute is renamed like any other attribute |
| NamespaceTranslator.IsCandidate | src/main/java/mobi/emmons/dmarc_stats/XmlNamespaceTranslator.java:34-37 | elements are renamed; attributes are unless their name starts with `xmlns:`; text and other nodes never are |
| NamespaceTranslator.OnlyElementsAndAttributes | src/main/java/mobi/emmons/dmarc_stats/XmlNamespaceTranslator.java:36-37 | text and other nodes keep their namespace |
| NamespaceTranslator.SecondVisitWouldChain | src/main/java/mobi/emmons/dmarc_stats/XmlNamespaceTranslator.java:39-46 | with a to b and b to c, one visit ends in b and a second visit would move it on to c |
| NamespaceTranslator.SecondPassIsIdentity | src/main/java/mobi/emmons/dmarc_stats/XmlNamespaceTranslator.java:39-46 | when no target is also a source, translating again changes nothing |
| NamespaceTranslator.NoNamespaceToTarget | src/test/java/mobi/emmons/dmarc_stats/XmlNamespaceTranslatorTest.java:40-47 | with "" mapped to a target, every element and ordinary attribute without a namespace moves into the target, and namespaced nodes stay |
| NamespaceTranslator.XmlNamespaceTranslator.constructor | src/main/java/mobi/emmons/dmarc_stats/XmlNamespaceTranslator.java:12 | the table starts empty |
| NamespaceTranslator.XmlNamespaceTranslator.AddTranslation | src/main/java/mobi/emmons/dmarc_stats/XmlNamespaceTranslator.java:22-27 | null from or to throws NullPointerException naming it, and the table is unchanged; otherwise the stripped pair replaces any earlier entry and the translator itself is returned; keys and values stay stripped |
| NamespaceTranslator.XmlNamespaceTranslator.TranslateNamespaces | src/main/java/mobi/emmons/dmarc_stats/XmlNamespaceTranslator.java:29-31 | every node of the document element's tree ends in the namespace Translated gives for its old one |
| NamespaceTranslator.XmlNamespaceTranslator.TranslateNode | src/main/java/mobi/emmons/dmarc_stats/XmlNamespaceTranslator.java:33-66 | the node and everything below it are each translated exactly once from their old namespace |
| NamespaceTranslator.XmlNamespaceTranslator.Rename | src/main/java/mobi/emmons/dmarc_stats/XmlNamespaceTranslator.java:36-46 | the node's own namespace becomes what Translated gives for its old one, and no other node changes |
| NamespaceTranslator.XmlNamespaceTranslator.TranslateAll | src/main/java/mobi/emmons/dmarc_stats/XmlNamespaceTranslator.java:50-65 | the loop over attributes or children translates every node below them once and leaves the rest of the tree alone |

## Left out

- IMAP access: session properties, connecting, opening the folder, running the search on the server, and the message getters. A folder is a sequence of `Message` values, and the search is the filter the search term defines.
- The IMAP SEARCH SINCE command compares whole days. The model compares `ReceivedDateTerm` exactly in epoch seconds, as `ReceivedDateTerm.match` does.
- Base64, zip, gzip and UTF-8 decoding: these are the `Codecs` functions. A zip listing is the entries read before any IOException, plus whether one occurred.
- Content-Type header parsing: a media type is a (primary, sub) pair. Only the matching rule of `ContentType.match` is modelled.
- JavaString.ToLower: only ASCII letters are lower-cased, as under an English or root locale. Java's `toLowerCase()` without arguments also folds other Unicode letters, and it follows the default locale: under a Turkish locale "ZIP" becomes "zıp" (dotless i), so an attachment named `REPORT.ZIP` with a non-zip type would miss the zip route. The model does not depend on a locale.
- Downloader.BuildFilter: `fromTime` is a Java `Long`, so a present value is required to fit a long; no caller can pass anything else.
- Console output: the per-message summary in `App.run`, the `SKIP` debug block, and printed stack traces.
- App.Main: the status the process reports is the low byte of the `System.exit` argument (255 for -1, 254 for -2). The model returns the argument itself. Line breaks (`%n`) are "\n".
- `MsgInfo.feedback()`, `MsgInfo.DMARC_NS` and the JAXB parse and serialisation of reports are not in the model. A report is `(reportId, end)`, and a file either parses or does not.
- ReportStore.ParseAll: an unreadable file, whose error is UncheckedIOException, and an unparsable one, whose error is IllegalStateException, both give the same IllegalState error.
- ReportStore.DmarcReportStore.WriteReportToStorage: a marshalling failure (IllegalStateException) is not modelled, so writes always succeed.
- Files.find descends into sub-directories and follows links. The model lists the storage directory's own entries; in the corrected load a sub-directory is never a regular file.
- The try-with-resources on `FileSystems.getDefault()` (DmarcReportStore.java:64) is not modelled. The JDK documents that closing the default file system throws UnsupportedOperationException, so the load as written would also end in that exception.
- A failing `mkdirs` is ignored in the source and does not occur in the model. A missing directory always becomes an empty one.
- The `download` parameter of `GetAllReports` stands for `downloadReportsAfter`, that is `MessageDownloader.download` followed by `feedback()`. Its credentials come from the store's configuration.
- NamespaceTranslator.XmlNamespaceTranslator.TranslateNode: `renameNode` may replace a node rather than change it, and it can throw NAMESPACE_ERR (for example, when renaming a plain `xmlns` attribute out of the xmlns namespace). Neither is modelled: renaming always changes the node's namespace in place. The empty target URI is stored as no namespace, which is how the DOM implementation treats it.
- NamespaceTranslator.DomNode: the DOM tree is built by its two constructors, as a parser would. Document serialisation, used by the test's comparison with a fixed file, is not modelled; `NoNamespaceToTarget` states the test's claim node by node.
- `MessageDownloaderTest` needs a live mailbox and members absent from the shown code, so it is not modelled.

## Findings

| source | as written | input that shows it | evidently intended | confidence | as-written member | corrected member |
|---|---|---|---|---|---|---|
| src/main/java/mobi/emmons/dmarc_stats/DmarcReportStore.java:65-67 | the glob `dmarc-*.xml` is matched against the whole path Files.find returns, and `*` does not cross a '/' | storage directory `reports` holding `dmarc-r1.xml`: the path `reports/dmarc-r1.xml` fails the glob, so for a named storage directory no stored report is ever loaded (with the current directory the paths are bare names and match) | match the glob against the file name | high; not executed | ReportStore.LoadAsWrittenFindsNothing | ReportStore.LoadSpec |
| src/main/java/mobi/emmons/dmarc_stats/DmarcReportStore.java:58 | `reports.addAll(newReports)` appends to the list from `Stream.toList()` (line 73), which is unmodifiable | `getAllReports(true)` with a successful load and download: every new report is written, then UnsupportedOperationException is thrown. As written this stays hidden: the load itself already ends in the UnsupportedOperationException of closing `FileSystems.getDefault()` (line 64), and the defect shows once that close is removed | append to a modifiable copy and return stored reports followed by new ones | high; not executed | ReportStore.MergeAsWrittenThrows | ReportStore.DmarcReportStore.GetAllReports |
