# Browser utilities: a verified model

A Dafny model of the algorithmic parts of a mobile browser's utility libraries, with proofs. Each
module follows one component; methods follow the loops and updates of the code, functions say what
the methods compute, and lemmas say what that means.

| component | modules |
|---|---|
| multipart parser: delimiter scan, body parts, header fields | `Octets`, `Segmentation`, `DelimiterScan`, `BodyPartParser`, `HeaderSplit`, `HeaderFields`, `PastTheEnd`, `MultipartParser`, `PartsGivenBack` |
| multipart composer, and composing then parsing | `Composer`, `ComposedDelimiters`, `RoundTrip` |
| URL of a body part | `UrlMerge` |
| gzip header reader | `GzipHeader` |
| telephony service: DTMF queues, dial string | `DtmfTokens`, `DtmfSender`, `DtmfRuns`, `DialString` |
| WBXML dictionary compiler | `TokenOrder`, `BubbleSort`, `DictTables`, `DictCreator`, `CodePages` |
| XML callbacks to SAX events | `SaxAdapter`, `SaxNamespaces` |
| dialogs: thumbnails, aspect ratio, sizes | `Thumbnails`, `AspectFit`, `SizeFormat` |

## Main results

1. **Exact segmentation** (`MultipartParser.ExactParse`). The parse loop moves its start position by
   the *length* of each part, so the next scan starts in text that was already seen. It still hands
   out exactly the parts between the delimiters if and only if every part k is longer than its end of
   line and longer than the preamble plus k delimiters. On input of any shape,
   `MultipartParser.PartsOfAnyInput` says what each part is and that the loop ends.
2. **Compose, then parse** (`RoundTrip.ParseUndoesComposeMixed`). Parsing a composed document returns
   one slice for every non-empty part in order, and gives a part back (headers without trailing line
   breaks, body ending in CRLF) if and only if its headers are clean (`RoundTrip.PieceParses`);
   `RoundTrip.ComposedSegmentation` gives the exact condition on the lengths, and `RoundTrip.TopHoldsNone`
   shows that the document's own fields are no obstacle. The two passes of the
   composer agree, and the announced length is exact if and only if no header block strips to one
   character (`Composer.ComposeMixed`). `HeaderFields.HeadersAreRecovered` says what every header block
   is read as, and `PartsGivenBack.PartIsGivenBack` that the parts of texts written by others, with LFs or
   CRLFs, come back as their headers, fields and bodies.
3. **DTMF runs** (`DtmfRuns.NothingElseIsSent`, `DtmfRuns.TonesAreConserved`). Over every run from any
   state of the service, with any answers, failures and hang-ups, what is sent is a prefix of the tones
   of the input; when all goes well it is all of them. A refused token and everything behind it is never
   sent (`DtmfRuns.RefusalEndsTheRun`). The two tokenisers stay in lockstep (`DtmfTokens.Lockstep`).
4. **Dictionary** (`DictCreator.Creator.ProcessContent` with `DictTables.EntriesAreConserved`,
   `DictTables.TokenTableIsSorted`, `DictTables.NameIndexIsSorted`, `CodePages.RowsAreThePages`). Every
   entry goes to exactly one table of the kind and page its heading names (`DictTables.KindOfTable`),
   tables are sorted by numeric token, the index sorts them by name,
   and the page table leads to them.
5. **Gzip header** (`GzipHeader.DecodesExactlyEncodings`). Reading undoes writing and accepts nothing
   else.
6. **SAX adapter** (`SaxAdapter.TreeIsHeard`, `SaxNamespaces.XmlScopingIsExact`) and **thumbnails**
   (`Thumbnails.PipelineInvariant`): the tree is heard, and the list stays consistent over every run.

## What the code does that its documentation does not say

- Header fields: an unterminated header value, and a Content-ID that does not start with '<', take the
  value of the header before them (`HeaderFields.ValueIsOwn` has the exact condition,
  `HeaderFields.IdTakesTypesValue` an input); a Content-ID of a single '<' panics
  (`HeaderSplit.LoneAngleStops`); a header name counts in the middle of a line
  (`HeaderFields.NameInsideALine`).
- Without a close delimiter the last part is meant to reach the end of the body but loses the last two
  octets of the buffer, or what there is of them behind its end of line; `Segmentation.MissingClose` and
  `DelimiterScan.LastOctetsAreLost` say exactly where it ends, and `DelimiterScan.UnclosedBodyIsLost` is
  an input. A line feed counts as an end of
  line behind a delimiter even when CRLF was chosen, and the part behind it loses the first octet of its
  header block (`HeaderSplit.LoneLfLosesAnOctet`).
- Header blocks of line breaks only make the composer run off their front; one-character header
  blocks make the announced length two too large (`Composer.ComposeMixed`,
  `Composer.OneCharacterIsOvercounted`).
- A base URL without a path gets no slash before a relative URL (`UrlMerge.NoPathNoSlash`), and a "./"
  in front of a slash makes the base path disappear (`UrlMerge.DotSlashSlashDropsTheBase`).
  `UrlMerge.ResolutionIsExact` says for every relative URL when the result is that of section 5.2.2 of
  RFC 3986: never for one with an authority.
- `NO_STRINGS` is documented as an option of the table it heads (dict_creator.c:183-198) but is read
  from the next heading (`DictTables.OptionOfTheNextHeading`, `DictTables.NoStringsIsMissed`).
  An empty last table is not emitted, and entries in front of the first heading join the first table.
- Once the user has been asked, DTMF strings of later calls are neither shown nor dialled unless
  confirmation is always asked for (`DialString.Dialer.MakeCall` has the exact condition,
  `DialString.LaterTonesAreDropped` an input).
- The upload note shows the integer part of a quotient only below ten thousand, and its first four digits
  from there on (`SizeFormat.NoteOfAny`).
- Behind a header value without an end of line, a header name inside that value counts as well, and all of
  them get the value read last (`PartsGivenBack.NamesWithoutEnd`).
- Namespace bindings are never dropped, so a prefix bound again keeps its first URI
  (`SaxNamespaces.ReboundPrefixIsMissed`), and default namespaces are not looked up at all
  (`SaxNamespaces.DefaultIsMissed`); `SaxNamespaces.XmlScopingIsExact` says when neither matters.

## How the platform is modelled

- Octets and characters are `char`; lengths are unbounded integers. Comparisons that would run past the
  end of the whole buffer are false; `strncasecmp` stops at a common NUL.
- `Left` and `Right` of a descriptor clip to its length; a negative length panics, as an outcome.
- Character classes, the URI parser, decoding and unzipping of a body, the number prefix service, `atoi`,
  the formatted date, the user's answers, the state of the call, the outcome of every request and of
  every decoder callback are inputs.
- The array that holds namespace prefixes is searched by a comparison that folds case, which is the
  default of that platform class; folding is that of the Latin letters.
- Gzip flag bits are those of section 2.3.1 of RFC 1952; the fixed header fields are ten octets.
- `MakeCallL` is the branch of the call user interface, which is the one the class needs.

## Model

| member | source | states |
|---|---|---|
| `Octets.CaseEqualPointwise` | browserutilities/multipartparser/src/MultipartParser.cpp:424-424 | `strncasecmp` over a pattern without NULs is equality of the letters at every place, up to case |
| `Octets.SameLetter` | browserutilities/multipartparser/src/MultipartParser.cpp:424-424 | two characters agree up to case exactly when they are the same or the two cases of one of the letters A to Z |
| `Octets.NulEndsComparison` | browserutilities/multipartparser/src/MultipartParser.cpp:424-424 | a NUL common to both texts ends the comparison |
| `Segmentation.SegmentsAreSlices` | browserutilities/multipartparser/src/MultipartParser.cpp:142-180 | on any event sequence every part handed out is in bounds, non-empty, behind an opening delimiter and free of events past its first skip + 1 octets; the loop ends with at most one part per octet |
| `Segmentation.NextSegmentIs` | browserutilities/multipartparser/src/MultipartParser.cpp:266-368 | from between delimiters k - 1 and k the scanner returns part k if and only if part k is longer than what is skipped after its delimiter |
| `Segmentation.EarlierPartAgain` | browserutilities/multipartparser/src/MultipartParser.cpp:166-166 | a start position that fell back to delimiter k or before makes the scanner return an earlier part again |
| `Segmentation.NotTheNextPart` | browserutilities/multipartparser/src/MultipartParser.cpp:166-166 | a start position that is not past delimiter k does not see part k + 1 next |
| `Segmentation.NothingAfterClosing` | browserutilities/multipartparser/src/MultipartParser.cpp:313-318 | from between the last two delimiters nothing more is returned; the epilogue is not looked at |
| `Segmentation.ExactSegmentation` | browserutilities/multipartparser/src/MultipartParser.cpp:133-180 | the relative advance gives exactly the parts between the delimiters if and only if each part k is longer than its end of line and longer than preamble + k delimiters |
| `Segmentation.FirstSegments` | browserutilities/multipartparser/src/MultipartParser.cpp:145-151 | the first m segments are the first m parts, or all if there are fewer, if and only if each of them is longer than its end of line and each but the m-th is longer than preamble + k delimiters |
| `Segmentation.MissingClose` | browserutilities/multipartparser/src/MultipartParser.cpp:344-349 | a part with no event behind it ends two octets short of the buffer, or right behind its skipped octets when less than one more octet follows; it reaches the end of the buffer if and only if the skipped octets do |
| `DelimiterScan.EventIsDelimiter` | browserutilities/multipartparser/src/MultipartParser.cpp:270-331 | away from the end of the buffer something is seen at a position exactly when a delimiter stands there |
| `DelimiterScan.FirstDelimiter` | browserutilities/multipartparser/src/MultipartParser.cpp:414-424 | returns the first delimiter at or after a position, and None only if there is none |
| `DelimiterScan.EventIs` | browserutilities/multipartparser/src/MultipartParser.cpp:270-341 | the tests the scanner makes at one position, in its order, name the event of that position, for every octet string |
| `DelimiterScan.SetEolCharacters` | browserutilities/multipartparser/src/MultipartParser.cpp:388-451 | the loop settles on LF exactly when the octet behind the first "--" and boundary is an LF, and on CRLF in every other case, without any delimiter too |
| `DelimiterScan.EolIsChosen` | browserutilities/multipartparser/src/MultipartParser.cpp:388-451 | the abstract choice is LF exactly when the octet behind the first delimiter is an LF, and CRLF without a delimiter |
| `DelimiterScan.GetNextBodyPartBuffer` | browserutilities/multipartparser/src/MultipartParser.cpp:222-369 | the scanning loop with all its exits (new delimiter, close delimiter, both kinds of short buffer, bad content, missing close) returns the abstract next part of the buffer's events |
| `DelimiterScan.StopIsEvent` | browserutilities/multipartparser/src/MultipartParser.cpp:270-341 | the first place where two hyphens are a delimiter, or too close to the end for one, is where the scan stops next, and what stands behind it tells whether a part opens or the content is bad |
| `DelimiterScan.ScanBetweenStops` | browserutilities/multipartparser/src/MultipartParser.cpp:222-369 | in octets: one scan gives what stands between its first stop and the next one, unless the first opens no part or the second has neither an end of line nor two hyphens behind it |
| `DelimiterScan.LastOctetsAreLost` | browserutilities/multipartparser/src/MultipartParser.cpp:344-349 | in octets: behind an opening delimiter that nothing closes the part ends at length - 2, and is complete if and only if nothing stands behind its end of line |
| `DelimiterScan.UnclosedBodyIsLost` | browserutilities/multipartparser/src/MultipartParser.cpp:344-349 | "--b" CRLF "xy": the part is the end of line, and "xy" is lost |
| `MultipartParser.PartsOfAnyInput` | browserutilities/multipartparser/src/MultipartParser.cpp:142-180 | on any octets each part is in bounds, not empty, starts right after a delimiter that an end of line follows, holds no delimiter past its end of line and one octet, and there are at most as many parts as octets |
| `MultipartParser.MultipartIsDelimited` | browserutilities/multipartparser/src/MultipartParser.cpp:248-265 | octets of the quoted multipart grammar, first to closing delimiter, are seen by the scanner as exactly those delimiters |
| `MultipartParser.ExactParse` | browserutilities/multipartparser/src/MultipartParser.cpp:133-180 | for a multipart body with delimiters d the slices are exactly the parts between them, in order and once each, if and only if each part k is longer than its end of line and than preamble + k delimiters |
| `MultipartParser.LimitedParse` | browserutilities/multipartparser/src/MultipartParser.cpp:142-180 | for every limit m, the first m parts, or all if there are fewer, are handed out if and only if each of them is longer than its end of line and each but the m-th is longer than preamble + k delimiters |
| `MultipartParser.ParseSegment` | browserutilities/multipartparser/src/MultipartParser.cpp:168-176 | a new body part object holds what the slice comes to: its octets parsed, decoded by the platform, and its URL; or the parse panics or leaves |
| `MultipartParser.ParseL` | browserutilities/multipartparser/src/MultipartParser.cpp:97-181 | the loop returns the finished slices in order up to aMaxToParse, stops short only at a slice that panics or leaves, and refuses exactly the unsupported content types |
| `MultipartParser.LimitIs` | browserutilities/multipartparser/src/MultipartParser.cpp:142-151 | aMaxToParse of -1 takes all parts, any other the first so many, which is none below zero |
| `MultipartParser.SupportedIs` | browserutilities/multipartparser/src/MultipartParser.cpp:125-131 | supported are the types that start with "multipart/mixed" or "multipart/related" in any letter case |
| `MultipartParser.FinishedIs` | browserutilities/multipartparser/src/MultipartParser.cpp:640-713 | with the body decoded first: an absolute Content-Location is the URL, without a Content-Location the absolute Content-Base is, and else the URL of the response; an unparsable one leaves |
| `BodyPartParser.BodyPart.constructor` | browserutilities/multipartparser/src/BodyPart.cpp:46-58 | a new body part has no headers, no body and no fields |
| `BodyPartParser.HeaderIsNoBlank` | browserutilities/multipartparser/src/MultipartParser.cpp:516-544 | where a header name stands no blank line stands |
| `PartsGivenBack.BlankIsTwoBreaks` | browserutilities/multipartparser/src/MultipartParser.cpp:613-618 | a blank line is two LFs, or two CRLFs when the end of line is CRLF, and its two or four octets are what is left out |
| `BodyPartParser.ReadValue` | browserutilities/multipartparser/src/MultipartParser.cpp:546-585 | skips the spaces, finds the end of the value, keeps the old value descriptor for an unterminated value or a Content-ID without '<', panics on a lone '<', and rewinds to just before the end of line |
| `BodyPartParser.ParseBodyPart` | browserutilities/multipartparser/src/MultipartParser.cpp:509-638 | the loop fills the body part as the scan of the octets says, header fields included, or panics when that does |
| `HeaderSplit.FirstBlank` | browserutilities/multipartparser/src/MultipartParser.cpp:613-616 | returns the first blank line inside the part, and None only if there is none |
| `HeaderSplit.NoLineEndInName` | browserutilities/multipartparser/src/MultipartParser.cpp:516-549 | no line end and no blank line starts within a header name |
| `HeaderSplit.JumpStopsAtBlank` | browserutilities/multipartparser/src/MultipartParser.cpp:558-585 | the jump behind a header value moves forward and never passes the first blank line |
| `HeaderSplit.HeaderStep` | browserutilities/multipartparser/src/MultipartParser.cpp:546-607 | a header other than a lone '<' changes neither headers nor body nor the first blank line still ahead |
| `HeaderSplit.LoneAngleStops` | browserutilities/multipartparser/src/MultipartParser.cpp:564-572 | a Content-ID whose value is a single '<' gives a negative length and panics |
| `HeaderSplit.JumpKeepsAngles` | browserutilities/multipartparser/src/MultipartParser.cpp:558-585 | the jump behind a header value neither skips nor adds a lone '<' that is the first header on its line |
| `HeaderSplit.ScanSplits` | browserutilities/multipartparser/src/MultipartParser.cpp:509-638 | for every part: the scan with its jumps panics if a lone '<' is the first header on its line in front of the first blank line, and otherwise splits where a plain search for the first blank line splits |
| `HeaderSplit.HeaderBodySplit` | browserutilities/multipartparser/src/MultipartParser.cpp:613-637 | a part panics exactly at such a '<', at a blank line that sticks out of the part and at one inside the octets of the end of line; otherwise it is the octets of its end of line, the headers, the blank line and the body, in this order, and with the blank line first there are no headers |
| `HeaderSplit.LoneLfLosesAnOctet` | browserutilities/multipartparser/src/MultipartParser.cpp:625-634 | a part behind a lone LF, although CRLF was chosen, panics exactly as above or with its blank line right behind the LF, and otherwise loses the first octet of its header block |
| `HeaderSplit.NoBlankNoSplit` | browserutilities/multipartparser/src/MultipartParser.cpp:613-638 | without a blank line there are neither headers nor a body, and a panic exactly at a lone '<' as above |
| `HeaderFields.OneNameStands` | browserutilities/multipartparser/src/MultipartParser.cpp:516-544 | at most one of the six names stands at a position, so the order of the tests does not matter |
| `HeaderFields.EveryLineIsProper` | browserutilities/multipartparser/src/MultipartParser.cpp:509-549 | every line can be taken apart at the first name of the table in it, or has none |
| `HeaderFields.ScanLine` | browserutilities/multipartparser/src/MultipartParser.cpp:546-607 | on every line the scan sets the field of its first name, if any, and comes to the line end, or panics exactly at a lone '<' |
| `HeaderFields.ScanBlock` | browserutilities/multipartparser/src/MultipartParser.cpp:509-638 | a block of any lines with an empty line and a body behind it is read line by line to the split or to the panic |
| `HeaderFields.HeadersAreRecovered` | browserutilities/multipartparser/src/MultipartParser.cpp:509-638 | a part made of any non-empty header lines, an empty line and a body panics exactly when a line is a lone '<' Content-ID, and otherwise parses to that header block, that body and exactly the fields of its field lines: the last of a kind counts, and a Content-ID without '<' takes the value before it |
| `HeaderFields.ValueIsOwn` | browserutilities/multipartparser/src/MultipartParser.cpp:558-585 | what a header sets does not depend on the header before it if and only if its value ends inside the part and, for a Content-ID, starts with '<' |
| `HeaderFields.IdTakesTypesValue` | browserutilities/multipartparser/src/MultipartParser.cpp:564-572 | "Content-Type: a" and "Content-ID: b" give the Content-ID "a" |
| `HeaderFields.NameInsideALine` | browserutilities/multipartparser/src/MultipartParser.cpp:516-544 | "X-Content-Type: a" sets the content type |
| `PastTheEnd.NameStaysInside` | browserutilities/multipartparser/src/MultipartParser.cpp:516-544 | no header name matches across the two hyphens behind a part |
| `PastTheEnd.SameHeaderStep` | browserutilities/multipartparser/src/MultipartParser.cpp:546-585 | header, spaces, value and value end come out the same with and without the octets behind the part |
| `PastTheEnd.PartParsesAlone` | browserutilities/multipartparser/src/MultipartParser.cpp:509-638 | comparisons past the end of a part that a delimiter follows change nothing: it parses as it would alone |
| `PartsGivenBack.OneLineRecovered` | browserutilities/multipartparser/src/MultipartParser.cpp:509-638 | a part with one proper header line comes to that line, the body and the line's field, or panics for a lone '<' |
| `PartsGivenBack.NameSetsItsField` | browserutilities/multipartparser/src/MultipartParser.cpp:516-607 | each of "Content-Base:", "Content-Location:", "Content-Transfer-Encoding:", "Content-Encoding:", "Content-Type:" and "Content-ID:", in any letter case, sets its own field to the value behind the space, a Content-ID without its angle brackets |
| `PartsGivenBack.EolIs` | browserutilities/multipartparser/src/MultipartParser.cpp:434-438 | the end of line of a text is read off the octet behind its first delimiter |
| `PartsGivenBack.PartIsGivenBack` | browserutilities/multipartparser/src/MultipartParser.cpp:97-181 | part k of any multipart text, with LFs or CRLFs, made of header lines, an empty line and a body, is given back with that header block, body and fields, or panics exactly for a lone '<' |
| `PartsGivenBack.LfTextIsGivenBack` | browserutilities/multipartparser/src/MultipartParser.cpp:434-438 | "--b\nContent-Type: a\n\nxy\n--b--" comes back as one part with the headers "Content-Type: a", that field, and the body "xy\n" |
| `PartsGivenBack.NamesWithoutEnd` | browserutilities/multipartparser/src/MultipartParser.cpp:546-607 | where no line ends any more every name still counts, one inside another's value too, and each gets the value read last |
| `Composer.DecimalDenotes` | browserutilities/multipartparser/src/MultipartParser.cpp:1589-1590 | the printed length is digits without a leading zero that denote the number |
| `Composer.HeadersByCharacter` | browserutilities/multipartparser/src/MultipartParser.cpp:1524-1536 | the panic comes for headers of CRs and LFs only, the overcount for one other character and CRs and LFs behind it |
| `Composer.DocumentIsSpelled` | browserutilities/multipartparser/src/MultipartParser.cpp:1583-1603 | the document is the Content-Type, Content-Length and Last-Modified fields the mask asks for, spelled out with digits that denote the length, an empty line and the body |
| `Composer.CountHeaders` | browserutilities/multipartparser/src/MultipartParser.cpp:1524-1533 | counts off the trailing CRs and LFs, and runs off the front exactly when the headers are nothing else |
| `Composer.SizePiece` | browserutilities/multipartparser/src/MultipartParser.cpp:1515-1544 | one round of the sizing pass adds the length that is printed for the part, plus two when one character is left of its headers |
| `Composer.SizeOfBody` | browserutilities/multipartparser/src/MultipartParser.cpp:1509-1547 | bodySize is the printed length from the first delimiter through the close delimiter plus two for each one-character header block |
| `Composer.SizeOfDocument` | browserutilities/multipartparser/src/MultipartParser.cpp:1548-1574 | docSize is the length of the header fields, the empty line and the body, with sixteen octets to spare when Content-Type is counted |
| `Composer.PrintHeaders` | browserutilities/multipartparser/src/MultipartParser.cpp:1614-1630 | prints the headers without their trailing line breaks and one empty line |
| `Composer.PrintPiece` | browserutilities/multipartparser/src/MultipartParser.cpp:1607-1639 | prints delimiter line, headers, body and a closing CRLF when the body needs one, and nothing for an empty part |
| `Composer.PrintParts` | browserutilities/multipartparser/src/MultipartParser.cpp:1605-1640 | prints all parts in order without running over the descriptor |
| `Composer.PrintTop` | browserutilities/multipartparser/src/MultipartParser.cpp:1583-1601 | prints the fields the mask asks for |
| `Composer.ComposeMixed` | browserutilities/multipartparser/src/MultipartParser.cpp:1499-1647 | for every mask the text is the fields asked for in their order, with digits in Content-Length that denote the announced length, an empty line and the body; it fits, with 16 spare octets for Content-Type and two per one-character header block; announced and allocated lengths are exact if and only if no header block strips to one character; the panic comes exactly for headers of line breaks only |
| `Composer.OneCharacterIsOvercounted` | browserutilities/multipartparser/src/MultipartParser.cpp:1524-1536 | a part with the header "a" and no body prints 13 octets, and one overcount is added to them |
| `ComposedDelimiters.LiveIsNonEmpty` | browserutilities/multipartparser/src/MultipartParser.cpp:1607-1612 | the parts that are printed are exactly those with headers or a body |
| `ComposedDelimiters.OnlyLivePiecesPrint` | browserutilities/multipartparser/src/MultipartParser.cpp:1605-1640 | leaving out the empty parts does not change the text |
| `ComposedDelimiters.TextAtOffset` | browserutilities/multipartparser/src/MultipartParser.cpp:1605-1640 | part k's text stands at the sum of the lengths in front of it |
| `ComposedDelimiters.NoBreakInDelimiter` | browserutilities/multipartparser/src/MultipartParser.cpp:268-288 | no delimiter reaches across a line break |
| `ComposedDelimiters.NoneInside` | browserutilities/multipartparser/src/MultipartParser.cpp:1613-1639 | text without a delimiter that ends in a line break has none inside the document either |
| `ComposedDelimiters.OneDelimiter` | browserutilities/multipartparser/src/MultipartParser.cpp:1613-1639 | within the printed text of a part a delimiter stands at its front and nowhere else |
| `RoundTrip.DelimitersAreOffsets` | browserutilities/multipartparser/src/MultipartParser.cpp:1604-1643 | up to the close delimiter the delimiters of a composed text are exactly the ones written |
| `RoundTrip.ComposedIsDelimited` | browserutilities/multipartparser/src/MultipartParser.cpp:1604-1643 | the parser's scanner sees a composed text as a closed multipart body with those delimiters |
| `RoundTrip.ComposedEol` | browserutilities/multipartparser/src/MultipartParser.cpp:388-451 | the parser settles on CRLF for every composed text |
| `RoundTrip.ComposedSegmentation` | browserutilities/multipartparser/src/MultipartParser.cpp:133-180 | a composed text is segmented exactly if and only if each part is longer than preamble + k delimiters |
| `RoundTrip.FirstBlankOfPiece` | browserutilities/multipartparser/src/MultipartParser.cpp:1621-1630 | the first blank line of a printed part is the one behind its headers when these hold none and are not one character |
| `RoundTrip.PieceParses` | browserutilities/multipartparser/src/MultipartParser.cpp:509-638 | a printed part parses to its stripped headers and its closed body if and only if its headers hold no blank line, are not one character and meet no lone '<' Content-ID |
| `RoundTrip.HyphensBehind` | browserutilities/multipartparser/src/MultipartParser.cpp:1613-1643 | behind every printed part stands a delimiter |
| `RoundTrip.ParseUndoesCompose` | browserutilities/multipartparser/src/MultipartParser.cpp:1604-1647 | parsing what was composed returns one slice for every non-empty part, in order; each is given back (headers without trailing line breaks, body ending in CRLF) if and only if its headers are clean |
| `RoundTrip.ParseUndoesComposeMixed` | browserutilities/multipartparser/src/MultipartParser.cpp:1499-1647 | the same for a whole document under any header mask, whose own field lines need no assumption but for the date |
| `RoundTrip.TypeFieldHoldsNone` | browserutilities/multipartparser/src/MultipartParser.cpp:1550-1586 | no delimiter stands in the Content-Type field, although the boundary does |
| `RoundTrip.LengthFieldHoldsNone` | browserutilities/multipartparser/src/MultipartParser.cpp:1589-1590 | no delimiter stands in the Content-Length field |
| `RoundTrip.DateFieldHoldsNone` | browserutilities/multipartparser/src/MultipartParser.cpp:1594-1600 | none stands in the Last-Modified field when the date has no two hyphens |
| `RoundTrip.TopHoldsNone` | browserutilities/multipartparser/src/MultipartParser.cpp:1583-1603 | under every mask the field lines and the empty line hold no delimiter, if the date field holds none |
| `UrlMerge.KeptPath` | browserutilities/multipartparser/src/MultipartParser.cpp:1390-1434 | the branches on '.' and '/' keep the base path up to its last slash, the whole path when its last dot comes first, or nothing |
| `UrlMerge.KeptIs` | browserutilities/multipartparser/src/MultipartParser.cpp:1390-1434 | of a base path with a dot at its front and nowhere else all is kept, with a slash behind; of any other what its last slash ends |
| `UrlMerge.ReferenceIsMerged` | browserutilities/multipartparser/src/MultipartParser.cpp:1390-1429 | for a reference without "./" the written path is the merge of section 5.2.3 of RFC 3986 if and only if the reference is rooted or the base has a non-empty path that is cut behind its last slash |
| `UrlMerge.MergeIsExact` | browserutilities/multipartparser/src/MultipartParser.cpp:1372-1429 | for a relative URL as written the path is the standard's under the same condition, except that behind a "./" in front of a slash the base path is dropped, which is right only when nothing of it would be kept |
| `UrlMerge.DotSlashSlashDropsTheBase` | browserutilities/multipartparser/src/MultipartParser.cpp:1372-1429 | ".//x" against "/a/b" gives "/x" where the standard has "/a//x" |
| `UrlMerge.PathlessIsMerged` | browserutilities/multipartparser/src/MultipartParser.cpp:1390-1429 | a reference without a path keeps the base path and query as the standard does if and only if the base path has no last segment and no query is lost |
| `UrlMerge.ResolutionIsExact` | browserutilities/multipartparser/src/MultipartParser.cpp:1323-1493 | for every relative URL the merged URL is that of section 5.2.2 of RFC 3986 under exactly these conditions, and never for one with an authority |
| `UrlMerge.RootedBaseMerges` | browserutilities/multipartparser/src/MultipartParser.cpp:1390-1429 | for a base path that starts with a slash the merge is the standard's if and only if no slash follows a "./"; it is rooted and ends in the reference right behind a slash |
| `UrlMerge.NoPathNoSlash` | browserutilities/multipartparser/src/MultipartParser.cpp:1390-1429 | "http://host" and "x" are merged to "http://hostx" |
| `UrlMerge.CountFront` | browserutilities/multipartparser/src/MultipartParser.cpp:1346-1370 | the counted length of scheme and authority is one short when there is a port |
| `UrlMerge.FrontOfAll` | browserutilities/multipartparser/src/MultipartParser.cpp:1441-1464 | scheme, user, host and port are written "http://u:p@host:80" |
| `UrlMerge.UrlRelToAbs` | browserutilities/multipartparser/src/MultipartParser.cpp:1323-1493 | URL, terminator and all fit the counted buffer for every base; leaves exactly without scheme or host |
| `UrlMerge.GetBodyPartUrl` | browserutilities/multipartparser/src/MultipartParser.cpp:1190-1288 | an absolute location stands alone, a relative one is resolved against the part's own base when that has a scheme and else the response URL, without a location that base is the URL; an unparsable base or location leaves |
| `GzipHeader.MemReadStream.Read` | browserutilities/multipartparser/src/GZipBufMgr.cpp:152-163 | a read delivers exactly the next n octets and advances by n, or fails at the end |
| `GzipHeader.FixedBothWays` | browserutilities/multipartparser/src/GZipBufMgr.cpp:156-178 | the ten fixed octets are read right exactly when their encoding stands in front |
| `GzipHeader.ExtraBothWays` | browserutilities/multipartparser/src/GZipBufMgr.cpp:180-199 | an extra field is read exactly when its little-endian length below 32768 and its octets stand there |
| `GzipHeader.StringBothWays` | browserutilities/multipartparser/src/GZipBufMgr.cpp:234-255 | a NUL-free string is read exactly when it and a NUL stand there |
| `GzipHeader.CrcBothWays` | browserutilities/multipartparser/src/GZipBufMgr.cpp:213-221 | the header checksum is read exactly when two octets stand there |
| `GzipHeader.EncodingStands` | browserutilities/multipartparser/src/GZipBufMgr.cpp:150-225 | an encoded header stands at the front exactly when its fields stand one behind the other |
| `GzipHeader.DecodesExactlyEncodings` | browserutilities/multipartparser/src/GZipBufMgr.cpp:150-225 | header h and end come out if and only if h is well-formed and its encoding stands at the front and ends there: reading undoes writing and nothing else is accepted |
| `GzipHeader.TruncatedIsRejected` | browserutilities/multipartparser/src/GZipBufMgr.cpp:165-168 | every proper front part of an encoding is rejected |
| `GzipHeader.FlagBits` | browserutilities/multipartparser/src/GZipBufMgr.cpp:180-213 | checksum, extra field, name and comment are there exactly for bits 1, 2, 3 and 4 of the flags |
| `GzipHeader.EveryOctet` | browserutilities/multipartparser/src/GZipBufMgr.cpp:150-225 | octets with every field in turn, the extra field's length 258 as 2 and 1, are read as that header whatever stands behind them |
| `GzipHeader.GZipBufMgr.constructor` | browserutilities/multipartparser/src/GZipBufMgr.cpp:57-74 | after construction the input is exactly the data behind the header and the offset is the header's length |
| `GzipHeader.GZipBufMgr.ReadGZipHeader` | browserutilities/multipartparser/src/GZipBufMgr.cpp:150-225 | the stream reads return the decoded header and set the offset behind it, or leave |
| `GzipHeader.GZipBufMgr.ReadExtraField` | browserutilities/multipartparser/src/GZipBufMgr.cpp:183-198 | reads length and field as the format says, rejecting a negative length |
| `GzipHeader.GZipBufMgr.ReadStringIntoDescriptor` | browserutilities/multipartparser/src/GZipBufMgr.cpp:234-255 | the octet loop returns what stands before the next NUL and stops behind it |
| `DtmfTokens.ParseDTMFSequencesL` | browserutilities/browsertelservice/src/BrowserTelService.cpp:1176-1227 | the cursor loop cuts the tokens to send at the abstract cut positions |
| `DtmfTokens.ParseDTMFSequencesForDlgL` | browserutilities/browsertelservice/src/BrowserTelService.cpp:1123-1170 | the cursor loop takes the rests to show from the same marks |
| `DtmfTokens.SqueezeKeeps` | browserutilities/browsertelservice/src/BrowserTelService.cpp:1196-1219 | between a mark and the next cut nothing is dropped |
| `DtmfTokens.TokensConcat` | browserutilities/browsertelservice/src/BrowserTelService.cpp:1176-1227 | the tokens cut from any position on concatenate to the rest of the input without superseded prompts |
| `DtmfTokens.SpansAreQuiet` | browserutilities/browsertelservice/src/BrowserTelService.cpp:1196-1219 | no token has a wait character behind its first position, each but the first starts with one and is not empty, and only the last can be a lone character at the end |
| `DtmfTokens.Lockstep` | browserutilities/browsertelservice/src/BrowserTelService.cpp:1123-1227 | for every input both tokenisers return equally many tokens; each sent one is a prefix of the shown one, which is a suffix of the input; each but the first starts with 'w', '/', 'p' or ',', and none has one behind its front; together the sent ones are the input without each 'w' or '/' that a wait character follows |
| `DtmfSender.TelService.RipWaitChar` | browserutilities/browsertelservice/src/BrowserTelService.cpp:1277-1297 | removes one leading wait character, if any, and returns it |
| `DtmfSender.TelService.ValidateDTMFNumber` | browserutilities/browsertelservice/src/BrowserTelService.cpp:1097-1117 | deleting in place keeps exactly the valid characters, in order |
| `DtmfSender.TelService.DisplaySendDTMFDialog` | browserutilities/browsertelservice/src/BrowserTelService.cpp:1233-1271 | asks after 'w' and '/', not after 'p' and ',', and without a wait character exactly when always or not yet confirmed |
| `DtmfSender.TelService.DoSendDTMF` | browserutilities/browsertelservice/src/BrowserTelService.cpp:833-880 | hands the number to the phone and is dialling exactly when a call is on |
| `DtmfSender.TelService.AskAbout` | browserutilities/browsertelservice/src/BrowserTelService.cpp:2488-2537 | a token is sent exactly when something is left to show and the user, if asked, agrees; asking once sets the confirmation flag |
| `DtmfSender.TelService.HandleInternalSendDTMF` | browserutilities/browsertelservice/src/BrowserTelService.cpp:2463-2564 | one step over both queues: a token that shows nothing, or is asked about and refused, is dropped and not sent; 'p' and ',' are not asked about; without a call it leaves; otherwise one more string is sent; with the new queues, state and confirmation flag in full |
| `DtmfSender.TelService.RunL` | browserutilities/browsertelservice/src/BrowserTelService.cpp:2031-2178 | every arm with the whole new state: a failed request, a call that gets through or not, a synchronous caller, sent tones, a hang-up, and no call at all |
| `DtmfSender.TelService.HandleError` | browserutilities/browsertelservice/src/BrowserTelService.cpp:2250-2291 | a failed request ends DTMF dialling connected and changes no other state |
| `DtmfSender.TelService.CheckDTMFNumber` | browserutilities/browsertelservice/src/BrowserTelService.cpp:2635-2666 | accepts exactly the strings of valid characters with at most one 'w' and at most one '/' |
| `DtmfSender.TelService.SendDTMF` | browserutilities/browsertelservice/src/BrowserTelService.cpp:741-786 | no call and a bad number each give their own error and send nothing; otherwise both queues are filled and the first step is taken |
| `DtmfSender.CharactersOfDtmf` | browserutilities/browsertelservice/src/BrowserTelService.cpp:82-83 | the tones are the digits, A to D in either case, '*' and '#'; valid are these and 'w', '/', 'p' and ',' |
| `DtmfSender.AcceptableIs` | browserutilities/browsertelservice/src/BrowserTelService.cpp:2635-2666 | acceptable are the strings of tones and wait characters with at most one 'w' and at most one '/' |
| `DtmfSender.HandleSteps` | browserutilities/browsertelservice/src/BrowserTelService.cpp:2463-2564 | the step, token by token: dropped when nothing is shown or refused, left without a call, sent otherwise |
| `DtmfSender.CompletedIs` | browserutilities/browsertelservice/src/BrowserTelService.cpp:2031-2178 | the completion of a request, state by state: which ones take a step and what the others do to the state |
| `DtmfRuns.CleanIsTones` | browserutilities/browsertelservice/src/BrowserTelService.cpp:2539-2544 | a token loses its leading wait character and its invalid characters and keeps its tones |
| `DtmfRuns.ExpectedIsTones` | browserutilities/browsertelservice/src/BrowserTelService.cpp:1176-1227 | the cleaned tokens together are the tones of the input |
| `DtmfRuns.HandleFollows` | browserutilities/browsertelservice/src/BrowserTelService.cpp:2463-2564 | a step on queues that hold the tokens from c on sends token c or nothing and keeps the queues equally long |
| `DtmfRuns.RunInLockstep` | browserutilities/browsertelservice/src/BrowserTelService.cpp:2554-2557 | every completion consumes both queues together |
| `DtmfRuns.RunFollows` | browserutilities/browsertelservice/src/BrowserTelService.cpp:2031-2178 | after any sequence of completions exactly the first d tokens have been sent behind what was sent before, and while dialling both queues hold the rest |
| `DtmfRuns.NothingElseIsSent` | browserutilities/browsertelservice/src/BrowserTelService.cpp:741-786 | over every run of a service in any state, with any answers, failures and hang-ups, what is sent from the call on is a prefix of the tones of the input; queues of equal length stay so |
| `DtmfRuns.NotDialingSendsNothing` | browserutilities/browsertelservice/src/BrowserTelService.cpp:2031-2178 | a connected or idle service sends nothing and keeps its queues, whatever completes |
| `DtmfRuns.RefusalEndsTheRun` | browserutilities/browsertelservice/src/BrowserTelService.cpp:2488-2557 | with confirmation always asked for: once token c is refused, the c tokens sent before are all that is ever sent, whatever completes then |
| `DtmfRuns.RefusedAtOnce` | browserutilities/browsertelservice/src/BrowserTelService.cpp:741-786 | when the first token is refused nothing is ever sent |
| `DtmfRuns.OnlyLastIsEmpty` | browserutilities/browsertelservice/src/BrowserTelService.cpp:2510-2536 | a token whose shown rest is empty is the last one and has no tones |
| `DtmfRuns.RunToEndSendsAll` | browserutilities/browsertelservice/src/BrowserTelService.cpp:2090-2123 | accepted prompts and successful requests drain both queues and end connected with everything sent |
| `DtmfRuns.TonesAreConserved` | browserutilities/browsertelservice/src/BrowserTelService.cpp:741-786 | for every accepted number, with all prompts accepted and all sends successful, the strings sent in the run concatenate to the input without 'w', '/', 'p' and ',', and the run ends connected |
| `DialString.ValidateNumber` | browserutilities/browsertelservice/src/BrowserTelService.cpp:885-958 | the in-place filter returns the number without spaces and separators when every remaining character may stand where it stands, and fails otherwise; what it returns are digits, DTMF and pause characters, and a '+' in front only |
| `DialString.DialableIs` | browserutilities/browsertelservice/src/BrowserTelService.cpp:885-958 | a character may stand if it is a digit, a '+' in front, or one of "*#ABCDPW,/" in either case behind the front; spaces and ".-()" are deleted |
| `DialString.DialableStays` | browserutilities/browsertelservice/src/BrowserTelService.cpp:1863-1895 | validation is idempotent, and every front part of a valid number is valid and unchanged by it |
| `DialString.FindPostdParm` | browserutilities/browsertelservice/src/BrowserTelService.cpp:964-978 | number, ";postd=" and what follows put together are what was given, and no ";postd=" starts earlier; without one nothing is cut off |
| `DialString.PostdIsUnique` | browserutilities/browsertelservice/src/BrowserTelService.cpp:964-978 | there is only one such way to take a number apart |
| `DialString.RipParameters` | browserutilities/browsertelservice/src/BrowserTelService.cpp:1047-1090 | splits at the first separator unless that comes first; nothing is lost |
| `DialString.CutAtIs` | browserutilities/browsertelservice/src/BrowserTelService.cpp:1047-1090 | the cut leaves a front part without the separator and a rest that starts with it, or, with the separator in front or nowhere, everything |
| `DialString.CutIsUnique` | browserutilities/browsertelservice/src/BrowserTelService.cpp:1047-1090 | there is only one such cut |
| `DialString.RipDtmf` | browserutilities/browsertelservice/src/BrowserTelService.cpp:985-1040 | splits at the first of "/wp,*#": none in front of it, and behind it every '/' and ',' is a 'p' and all else unchanged |
| `DialString.SplitNumber` | browserutilities/browsertelservice/src/BrowserTelService.cpp:441-454 | base, URI parameters, over VoIP the host, and post-dial string: put together they are the number, and each starts at its first separator |
| `DialString.Dialer.ConfirmDtmf` | browserutilities/browsertelservice/src/BrowserTelService.cpp:556-590 | tones are sent exactly when there are some, the user agrees and is asked; without always-confirm the user is asked once ever |
| `DialString.Dialer.Dial` | browserutilities/browsertelservice/src/BrowserTelService.cpp:441-540 | from splitting to dialling: an invalid number, a refused call, and for a confirmed one the string dialled by what stands in it |
| `DialString.Dialer.MakeCall` | browserutilities/browsertelservice/src/BrowserTelService.cpp:375-545 | every outcome of a call request: ignored, the errors, nothing dialled when the user refuses the call, or the string dialled: the number with "p" and the post-dial string, its tones with '/' and ',' as 'p', or what stands in front of unconfirmed tones, and the unchanged parameters; the validated base with all its tones if and only if there are none, or they are agreed to and (always, or never before) asked about |
| `DialString.DialStringIsConserved` | browserutilities/browsertelservice/src/BrowserTelService.cpp:441-530 | the planned string is the validated base with '/' and ',' as 'p' followed by the unchanged parameters if and only if the tones go with it or there are none |
| `DialString.PlanIs` | browserutilities/browsertelservice/src/BrowserTelService.cpp:441-545 | the planned outcome, by an invalid number, a refused call and a confirmed one |
| `DialString.PlanDialsRightly` | browserutilities/browsertelservice/src/BrowserTelService.cpp:495-540 | what is put behind the number in front of its tones is what a number with and without DTMF characters asks for |
| `DialString.PostDialIsDialled` | browserutilities/browsertelservice/src/BrowserTelService.cpp:441-530 | base, parameters and ";postd=" with a post-dial string are dialled as base, "p", that string and the parameters |
| `DialString.LaterTonesAreDropped` | browserutilities/browsertelservice/src/BrowserTelService.cpp:556-590 | "1p2" is dialled as "1" once the user has been asked and need not always be |
| `TokenOrder.LeTotal` | browserutilities/cxmllibrary/dictionary/dict_creator.c:572-582 | the order of strcmp is total |
| `TokenOrder.LeTransitive` | browserutilities/cxmllibrary/dictionary/dict_creator.c:572-582 | the order of strcmp is transitive |
| `TokenOrder.LeAntisymmetric` | browserutilities/cxmllibrary/dictionary/dict_creator.c:572-582 | strings that strcmp holds equal are equal |
| `TokenOrder.HexOrder` | browserutilities/cxmllibrary/dictionary/dict_creator.c:549-553 | on lower-case "0x??" tokens the order of strcmp is the order of the numbers, both ways |
| `BubbleSort.ComparedStep` | browserutilities/cxmllibrary/dictionary/dict_creator.c:570-585 | a comparison carries the maximum on and leaves the settled rows alone |
| `BubbleSort.PassSettles` | browserutilities/cxmllibrary/dictionary/dict_creator.c:570-585 | a pass brings the maximum of the unsettled rows behind them and does nothing beyond |
| `BubbleSort.FullPassSettles` | browserutilities/cxmllibrary/dictionary/dict_creator.c:570-585 | each full pass settles one more row |
| `BubbleSort.BubbleSorts` | browserutilities/cxmllibrary/dictionary/dict_creator.c:570-585 | n - 1 full passes sort n rows by key |
| `BubbleSort.BubbleSortIsStable` | browserutilities/cxmllibrary/dictionary/dict_creator.c:570-585 | the sort is a permutation and keeps rows of equal keys in their old order |
| `BubbleSort.CompareAndSwap` | browserutilities/cxmllibrary/dictionary/dict_creator.c:572-583 | swaps both parallel arrays at j exactly when the keys are out of order and touches nothing else |
| `BubbleSort.SortRows` | browserutilities/cxmllibrary/dictionary/dict_creator.c:570-585 | the nested loops over two parallel arrays compute the bubble sort of their rows in place |
| `DictTables.SectionsAreTheLines` | browserutilities/cxmllibrary/dictionary/dict_creator.c:748-829 | sections and the lines in front of them are the file again, cut at the headings and nowhere else |
| `DictTables.WordsOfALine` | browserutilities/cxmllibrary/dictionary/dict_creator.c:57-59 | headings are "TAGS_FOR_CODE_PAGE" and "ATTRIBUTES_FOR_CODE_PAGE", the option is "NO_STRINGS" |
| `DictTables.GroupsFromSections` | browserutilities/cxmllibrary/dictionary/dict_creator.c:748-829 | the line-driven flushing from any state gives one table per section |
| `DictTables.GroupsByHeading` | browserutilities/cxmllibrary/dictionary/dict_creator.c:748-829 | a whole file gives one table per heading, with the entries behind it; entries in front of the first heading join the first table |
| `DictTables.EntriesAreConserved` | browserutilities/cxmllibrary/dictionary/dict_creator.c:748-829 | in a file with a heading every entry is emitted exactly once, in order |
| `DictTables.TableOfHeading` | browserutilities/cxmllibrary/dictionary/dict_creator.c:748-829 | table k has the kind and code page of heading k, the string option of the next heading, or of its own for the last, and section k's entries |
| `DictTables.KindOfTable` | browserutilities/cxmllibrary/dictionary/dict_creator.c:766-800 | table k of a file is a tag table exactly when heading k reads "TAGS_FOR_CODE_PAGE" and an attribute table exactly when it reads "ATTRIBUTES_FOR_CODE_PAGE"; it has that heading's page and the entries behind it |
| `DictTables.TablesOfHeadings` | browserutilities/cxmllibrary/dictionary/dict_creator.c:814-828 | every heading gets a table, but for a last one without entries |
| `DictTables.OptionOfTheNextHeading` | browserutilities/cxmllibrary/dictionary/dict_creator.c:767-770 | NO_STRINGS is read off the next heading, or its own for the last table: it takes effect on the table it heads exactly when both say the same |
| `DictTables.NoStringsIsMissed` | browserutilities/cxmllibrary/dictionary/dict_creator.c:767-770 | a table headed NO_STRINGS with a plain heading behind it gets strings |
| `DictTables.TokenTableIsSorted` | browserutilities/cxmllibrary/dictionary/dict_creator.c:544-585 | the token table is a stable permutation of the lower-cased entries, non-decreasing in the numbers the tokens denote |
| `DictTables.NameIndexIsSorted` | browserutilities/cxmllibrary/dictionary/dict_creator.c:689-711 | the index is a permutation of the row numbers that lists the names of the token table in non-decreasing order; without strings it is zeros |
| `DictTables.TokenCheck` | browserutilities/cxmllibrary/dictionary/dict_creator.c:545-567 | accepted are exactly the tokens of four characters without g to w, y and z; among "0x" and two letters or digits that are no x, exactly the hexadecimal ones |
| `DictTables.CachedSizes` | browserutilities/cxmllibrary/dictionary/dict_creator.c:714-725 | the cached size of a page is the number of entries of the last table for it, and no other page changes |
| `DictCreator.TooManyEntries` | browserutilities/cxmllibrary/dictionary/dict_creator.c:504-509 | more entries than the scratch tables hold end up in a table that cannot be printed |
| `DictCreator.Overrun` | browserutilities/cxmllibrary/dictionary/dict_creator.c:504-509 | an entry on full scratch tables makes a file with a heading unprintable |
| `DictCreator.Creator.constructor` | browserutilities/cxmllibrary/dictionary/dict_creator.c:315-322 | at the start every slot of both page tables is unused |
| `DictCreator.Creator.ProcessEntry` | browserutilities/cxmllibrary/dictionary/dict_creator.c:504-509 | appends the entry to the parallel arrays and numbers it |
| `DictCreator.Creator.LowerOne` | browserutilities/cxmllibrary/dictionary/dict_creator.c:545-567 | lower-cases a token in place and accepts it exactly when it has four characters and no letter but x and a to f |
| `DictCreator.Creator.LowerTokens` | browserutilities/cxmllibrary/dictionary/dict_creator.c:544-568 | succeeds exactly when all tokens are acceptable and leaves the names and numbers alone |
| `DictCreator.Creator.PrintTokenTable` | browserutilities/cxmllibrary/dictionary/dict_creator.c:516-712 | rows and index of the table, or failure exactly on a malformed token |
| `DictCreator.Creator.PrintNameTable` | browserutilities/cxmllibrary/dictionary/dict_creator.c:730-746 | prints the index, or zeros without strings |
| `DictCreator.Creator.CacheCodepage` | browserutilities/cxmllibrary/dictionary/dict_creator.c:714-725 | writes one slot, or fails exactly outside the page table |
| `DictCreator.Creator.Flush` | browserutilities/cxmllibrary/dictionary/dict_creator.c:770-773 | printing and caching of the current table succeed exactly when it is printable, and then add exactly that table |
| `DictCreator.Creator.ProcessContent` | browserutilities/cxmllibrary/dictionary/dict_creator.c:748-829 | succeeds exactly when there is a heading and every table is printable; the tables are then printed in order with the kind and page of their headings, and a slot of the tag pages is used exactly for a table under "TAGS_FOR_CODE_PAGE" with that page, one of the attribute pages exactly under "ATTRIBUTES_FOR_CODE_PAGE" |
| `CodePages.GetNumCodepages` | browserutilities/cxmllibrary/dictionary/dict_creator.c:831-841 | returns how many page slots are used and the last of them |
| `CodePages.PrintCodepageTable` | browserutilities/cxmllibrary/dictionary/dict_creator.c:843-893 | one row per page up to the last used one, zeros for the unused ones |
| `CodePages.UsedPages` | browserutilities/cxmllibrary/dictionary/dict_creator.c:714-725 | a slot is used if and only if the file has a table for that page, and bears its own number |
| `CodePages.PagesByHeading` | browserutilities/cxmllibrary/dictionary/dict_creator.c:714-725 | a slot of each page table is used if and only if the file has a table for that page under the heading of its kind |
| `CodePages.RowsAreThePages` | browserutilities/cxmllibrary/dictionary/dict_creator.c:831-893 | the row of a page is filled if and only if the file has a table for the page, and holds the entry count of the last one |
| `SaxAdapter.Observer.BeginElementCB` | browserutilities/xmlparser/src/CXMLReader.cpp:58-73 | pushes the element and forgets the attributes of the one before |
| `SaxAdapter.Observer.AttributeValueCB` | browserutilities/xmlparser/src/CXMLReader.cpp:112-140 | appends name and value in parallel and, for xmlns:, prefix and URI in parallel |
| `SaxAdapter.Observer.GetURI` | browserutilities/xmlparser/src/CXMLObserver.cpp:149-161 | finds the first binding of a prefix in the parallel arrays |
| `SaxAdapter.Observer.CollectAttributes` | browserutilities/xmlparser/src/CXMLAttributes.cpp:199-206 | the handler reads names and values pairwise, in the order they were appended |
| `SaxAdapter.Observer.AttributesEndCB` | browserutilities/xmlparser/src/CXMLReader.cpp:148-172 | the start event carries the top element, its local name and URI, and the attributes |
| `SaxAdapter.Observer.ContentCB` | browserutilities/xmlparser/src/CXMLReader.cpp:196-206 | text is passed on |
| `SaxAdapter.Observer.EndElementCB` | browserutilities/xmlparser/src/CXMLReader.cpp:80-94 | pops the element, if any, and passes the end on |
| `SaxAdapter.StartOf` | browserutilities/xmlparser/src/CXMLReader.cpp:148-172 | a name with a prefix starts with the prefix's URI, its local name and itself; one without a colon, or with the colon in front, with two empty texts |
| `SaxAdapter.LookupIs` | browserutilities/xmlparser/src/CXMLObserver.cpp:149-161 | a lookup gives the URI of the first binding of the prefix in any letter case, a single space without one; only names that start with "xmlns:" bind |
| `SaxAdapter.OnAnEmptyStack` | browserutilities/xmlparser/src/CXMLObserver.cpp:118-143 | without an element the start event names a single space and an end pops nothing |
| `SaxAdapter.RunAttributes` | browserutilities/xmlparser/src/CXMLReader.cpp:112-140 | the attribute callbacks of an element append exactly its attributes and its bindings, in order |
| `SaxAdapter.TreeIsHeard` | browserutilities/xmlparser/src/CXMLReader.cpp:58-172 | for every element tree the handler hears the tree: each start with exactly its own attributes in order, its contents in order, its end; the stack is as before |
| `SaxAdapter.ForestIsHeard` | browserutilities/xmlparser/src/CXMLReader.cpp:58-206 | the same for a run of children and text |
| `SaxNamespaces.UrisAreScoped` | browserutilities/xmlparser/src/CXMLObserver.cpp:143-161 | when all bindings of a prefix, in any letter case, have one URI and each prefix is used in its scope, every prefix gets the URI that scoping gives it |
| `SaxNamespaces.ForestUrisAreScoped` | browserutilities/xmlparser/src/CXMLObserver.cpp:143-161 | the same for a run of children |
| `SaxNamespaces.AllAsFirst` | browserutilities/xmlparser/src/CXMLObserver.cpp:149-161 | where every prefix gets its scoped URI and no binding is declared in vain, every binding has the URI of the first binding of its prefix |
| `SaxNamespaces.ScopingIsExact` | browserutilities/xmlparser/src/CXMLObserver.cpp:143-161 | in a document that uses each prefix in its scope and declares none in vain, every prefix gets its scoped URI if and only if all bindings of a prefix have one URI |
| `SaxNamespaces.HearsXml` | browserutilities/xmlparser/src/CXMLReader.cpp:130-171 | the adapter's events are those of XML namespaces if and only if they are right for the prefixes and no element without a prefix has a default namespace |
| `SaxNamespaces.XmlUrisAreScoped` | browserutilities/xmlparser/src/CXMLReader.cpp:130-171 | with one URI to a prefix and each used in its scope, the events are those of XML namespaces if and only if no element without a prefix has a default namespace |
| `SaxNamespaces.XmlScopingIsExact` | browserutilities/xmlparser/src/CXMLReader.cpp:112-172 | in a document that uses each prefix in its scope and declares none in vain, every element gets the URI of XML namespaces, defaults included, if and only if all bindings of a prefix have one URI and no element without a prefix has a default namespace |
| `SaxNamespaces.DefaultIsMissed` | browserutilities/xmlparser/src/CXMLReader.cpp:130-171 | the element y with xmlns="u" is started in no namespace |
| `SaxNamespaces.ReboundPrefixIsMissed` | browserutilities/xmlparser/src/CXMLObserver.cpp:149-161 | a prefix bound again inside, in the same letters or in others, keeps its outer URI |
| `Thumbnails.ImageList.constructor` | browserutilities/browserdialogsprovider/Src/BrowserViewImagesListBox.cpp:97-127 | one placeholder item per image and one icon |
| `Thumbnails.ImageList.ConvertNextImage` | browserutilities/browserdialogsprovider/Src/BrowserViewImagesListBox.cpp:294-300 | moves on by one image and stops behind the last |
| `Thumbnails.ImageList.NextOrSkip` | browserutilities/browserdialogsprovider/Src/BrowserViewImagesListBox.cpp:279-287 | a leave while opening the next image moves on once more, and only once |
| `Thumbnails.ImageList.AddThumbnail` | browserutilities/browserdialogsprovider/Src/BrowserViewImagesListBox.cpp:520-527 | append, insert and delete come to replacing the current item by one with the new icon, or to nothing when the insertion fails |
| `Thumbnails.ImageList.Handle` | browserutilities/browserdialogsprovider/Src/BrowserViewImagesListBox.cpp:331-550 | each callback outcome updates index, icons and items as the abstract step says |
| `Thumbnails.StepKeepsConsistent` | browserutilities/browserdialogsprovider/Src/BrowserViewImagesListBox.cpp:351-550 | every callback keeps the list consistent |
| `Thumbnails.StepFollows` | browserutilities/browserdialogsprovider/Src/BrowserViewImagesListBox.cpp:351-550 | no callback moves the index back, drops an icon, or changes an item in front of the index or one that has its thumbnail |
| `Thumbnails.CallbackMoves` | browserutilities/browserdialogsprovider/Src/BrowserViewImagesListBox.cpp:240-550 | how far each callback moves the index on; only a converted picture adds an icon |
| `Thumbnails.ThumbnailStays` | browserutilities/browserdialogsprovider/Src/BrowserViewImagesListBox.cpp:473-550 | a converted picture's new icon is shown at its image's place after every run of further callbacks, and the items in front are as before |
| `Thumbnails.ConvertedShows` | browserutilities/browserdialogsprovider/Src/BrowserViewImagesListBox.cpp:473-527 | a converted picture changes exactly the item at the index, to the icon just added |
| `Thumbnails.PipelineInvariant` | browserutilities/browserdialogsprovider/Src/BrowserViewImagesListBox.cpp:240-550 | over every sequence of callbacks: as many items as images, placeholders from the index on, icon numbers in range and increasing with position, index never back |
| `Thumbnails.ConstructedIsConsistent` | browserutilities/browserdialogsprovider/Src/BrowserViewImagesListBox.cpp:97-127 | the list starts out consistent |
| `AspectFit.OtherWayFits` | browserutilities/browserdialogsprovider/Src/BrowserViewImagesListBox.cpp:181-184 | when the height for the full width does not fit, the width for the full height does |
| `AspectFit.Fit` | browserutilities/browserdialogsprovider/Src/BrowserViewImagesListBox.cpp:165-187 | the result lies in the box; it fills the width, with the exact height rounded half up, whenever that height rounds into the box, and otherwise the height, with the exact width rounded; it loses a side altogether exactly for pictures more than 2 * box side times as long in the other |
| `AspectFit.FlatPicturesVanish` | browserutilities/browserdialogsprovider/Src/BrowserViewImagesListBox.cpp:172-175 | the height for the full width comes out as zero exactly for pictures more than 2 * box width times as wide as high |
| `AspectFit.ThinPicturesAreFittedByHeight` | browserutilities/browserdialogsprovider/Src/BrowserViewImagesListBox.cpp:181-184 | a picture whose width comes out as zero is too high for the full width |
| `SizeFormat.Division` | browserutilities/browserdialogsprovider/Src/BrowserUploadProgressNote.cpp:196-239 | the digit loop is long division to three decimals, cut to four characters, or to three when the fourth is the separator |
| `SizeFormat.NoteOfAny` | browserutilities/browserdialogsprovider/Src/BrowserUploadProgressNote.cpp:196-239 | for every quotient q: two true decimals below 10, one below 100, none from 100 on, and from 1000 on the first four digits, which are the integer part exactly below 10000 |
| `SizeFormat.TwoDecimals` | browserutilities/browserdialogsprovider/Src/BrowserUploadProgressNote.cpp:208-222 | the digit loop gives the decimals of the quotient |
| `SizeFormat.MegabyteText` | browserutilities/browserdialogsprovider/Src/BrowserDialogsProvider.cpp:806-836 | the branches on the number of megabytes show the size cut off behind three digits, with its leading zeros |
| `SizeFormat.FormattersAgree` | browserutilities/browserdialogsprovider/Src/BrowserUploadProgressNote.cpp:196-239 | from 1000 to 999999 the upload note and the download dialog show the same text of at most four characters |
| `SizeFormat.ShownDenotes` | browserutilities/browserdialogsprovider/Src/BrowserDialogsProvider.cpp:806-836 | the text shows three digits of a number v of units with v units <= size < v + 1 units: cut off, never rounded up |
| `SizeFormat.ThreeLayouts` | browserutilities/browserdialogsprovider/Src/BrowserDialogsProvider.cpp:806-836 | 1239, 12398 and 123987 are shown as "1.23", "12.3" and "123" |

## Left out

- MultipartParser.ParseL: null pointers and the empty body, on which the code asserts, are excluded; 32-bit wrap-around of lengths is not modelled.
- HeaderFields.HeadersAreRecovered: header lines are not empty, as an empty line ends the block.
- RoundTrip.ParseUndoesComposeMixed: requires a boundary that does not occur in headers, bodies and the date field, and parts long enough for the parse; ComposedSegmentation has both directions of the length condition.
- GzipHeader.DecodesExactlyEncodings: the compressed data and the trailing checksum are left out; extra fields of 32768 octets and more are rejected, as the code reads their length as a signed word.
- DtmfSender.TelService.RunL: the notes and dialogs, the wait loops of synchronous callers and the reports to observers are left out; null queues are empty queues.
- DialString.Dialer.MakeCall: disconnection of data calls and the phonebook lookup are left out, as they do not change what is dialled; the length limit is a parameter.
- DictCreator.Creator.ProcessContent: line reading and splitting, printing as C text and the page number of a text are left out; where the code would write outside its arrays the model fails.
- SaxNamespaces.XmlScopingIsExact: documents in which every binding is used by the declaring element or inside it; an unused binding may differ without harm, so XmlUrisAreScoped alone covers the others. Local names of elements without a prefix are empty in the adapter and in what it is compared with.
- SaxAdapter.TreeIsHeard: handlers that refuse, CDATA, entities, comments, processing instructions and WBXML are left out.
- Thumbnails.PipelineInvariant: termination is not claimed, because a conversion that always fails with KErrArgument is retried without bound; item texts are reduced to the image they name, and decryption to its outcome.
- AspectFit.Fit: exact arithmetic instead of floating point, positive sizes, halves rounded up.
- SizeFormat.FormattersAgree: sizes from 1000 to 999999 and a separator that is not a digit; the kilobyte and gigabyte branches are left out.
- UrlMerge.ResolutionIsExact: removal of dot segments other than one leading "./" is left out, as the code does none; the URI parser is a parameter.
- Content-Transfer-Encoding, content types with attributes, charsets and unzipping of a body part: library calls, or parsing that does not handle quoted parameters; they are one parameter of ParseL that may leave.
- ComposeL's choice of subtype: only multipart/mixed exists.
- Internet connection manager, recent URL store, user agent, list boxes and other dialogs, loggers, download descriptors and forwarding headers: operating system and database calls.
- Memory management: ownership, clean-up and out-of-memory leaves.
