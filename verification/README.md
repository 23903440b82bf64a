# A verified model of the proxy's rewriting, scoping and codec core

The program is a web proxy that serves every site from one origin of its own. Three
things make that work, and they are what this project models and proves.

* **Documents.** The server streams each HTML page through a hand-written scanner that
  replaces URLs by proxy links and copies everything else byte for byte. The model keeps
  the lexical structure of a document as values (`StartTag`, `Tokens`), states the rewrite
  as an edit of that structure (`Rules`, `TagEdit`, `HtmlRewrite`), and proves that the
  index loops that splice into an output buffer (`Scanner`, `Splice`, `HtmlScanners`)
  compute it. The main theorem, `HtmlRewrite.StructurePreserved`, says that tokenizing the
  output gives the source's tokens, each edited as intended;
  `Readings.DocumentsReadAsMeant` and the laws of `Documents` say, by element and attribute,
  what that edit means to a browser.
* **Shared cookies and storage.** All sites share one cookie jar and one storage area, so
  names carry a prefix made from a hash of the scope. The model proves that names parse
  uniquely, that delivery over whole runs is exactly what separate jars would do, that the
  server's Go code and the browser's JavaScript agree, and that the storage shim gives
  every site the store it would have had alone.
* **Links.** A proxy link is `/p/` followed by the target in base64url. The model proves
  the codec's round trip on both sides, that links never nest, and that module requests
  which the browser resolved against a link are mapped back to the file they meant.

Four smaller algorithms complete it: PBKDF2 with in-place buffers against the recursive
standard, the password hash built on it, the login rate limiter over whole runs, and the
Content-Security-Policy translator.

## How it is organised

| files | contents |
|---|---|
| `Text`, `Words`, `Sequences`, `CharRefs` | strings, trimming and splitting, sequences without repetitions, character references |
| `StartTag`, `TagEdit`, `EndTags`, `Tokens`, `TokenRoundTrip` | the lexical structure of a document, as a scanner and a printer that are inverse to each other |
| `Values`, `ValueTexts`, `Rules`, `HtmlRewrite`, `Merging` | what a value, a tag and a document are rewritten to, and when the structure survives |
| `Readings`, `Documents`, `References` | the same as a browser reads it and on the text of documents, element by element, without the rules' own tables |
| `Scanner`, `Splice`, `HtmlScanner` | the same as loops over indices, with recorded spans and an output buffer |
| `DocumentBase`, `BaseAgreement`, `BaseTexts` | the pre-scan for the document's base, and when it agrees with the tokenizer |
| `Hash`, `CookieScope`, `KeyedList`, `CookieJar`, `CookieText`, `CookieReading`, `WebStorage` | scoping of cookies and storage |
| `CookieDomains`, `CookieAttributes` | who receives a cookie, by hosts, Domains and attributes alone |
| `Base64`, `Codec`, `Link`, `LinkTargets`, `ModulePaths`, `Proxying`, `Requests`, `SampleBrowser` | links, on the server and in the browser, and where every request goes |
| `Csp`, `CspGrants`, `RateLimiter`, `Pbkdf2`, `Password` | the smaller algorithms |
| `Vectors` | known answers and tables of the standards |

A document, header or URL is a `string` whose characters stand for bytes. Where the source
works by changing variables in place, the model is a method with loops (and a class where
the source has an object), proved equal to a function; the properties are lemmas about the
function. Where it is expressions and calls, the model is the function itself.

What the program leaves to its surroundings is a parameter: the URL parser and resolver,
the CSS rewriter, HMAC, the clock and the random salt. The hypotheses on them are named
predicates: `Values.Resolves` (a resolver returns its argument or a link),
`HtmlRewrite.AddsNoEndTag` (rewritten CSS opens no `</style`, and empty CSS stays empty),
`Proxying.Sound` (a browser parses what it prints, refuses a base that does not parse, and
keeps a link as it is), `Proxying.ResolvesPaths` (against an http(s) page, a relative
reference means what its path resolves to) and `Proxying.KeepsScheme` (and one that names
no scheme keeps the page's), all three proved of a small browser in `SampleBrowser`,
`CookieJar.Separates` (the hash tells the scopes of a run apart), `Pbkdf2.HasSize`.

Which module specifiers can be recovered is stated of paths alone, by section 5.2 of RFC
3986 as `ModulePaths.Meaning` writes it out: a reference is empty, starts with a scheme,
two slashes or one, or is relative. A decoded token is given to `Browser.parse` as bytes,
so `parse` stands for UTF-8 decoding and parsing together; the decoding by itself is
`Codec.TextDecode`, and the URLs a browser prints are ASCII.

## Where the code does not do what one would expect

* Two attributes can merge when the rewriter drops one between them, so the output of such
  a document tokenizes differently: a nameless attribute (`="y"`) after a valueless one and
  a dropped one becomes the valueless one's value, and a stray `/` before a dropped
  attribute and `>` becomes a self-closing end. `Merging.StructureCanBreak` shows both;
  `HtmlRewrite.StructurePreserved` holds exactly when no tag of the document does this
  (`TagEdit.NothingMerges`), and `Merging.OtherTagsAreSafe` shows that only `<link>` and
  `<base>` can.
* The base pre-scan steps into `<!...>`, `<?...>` and `</...>`, which the tokenizer skips,
  so a `<base>` inside a declaration misleads it (`DocumentBase.PreScanCanDisagree` and
  `PreScanDisagrees`); `BaseAgreement.PreScanAgreesExactly` says exactly when it does not.
* A request for a target that is neither http nor https, such as a script's request that
  stands for `mailto:x`, is given a link that is wrapped again when it is requested
  (`Proxying.NestsExactly`, `SampleBrowser.NestingHappens`).
* A cookie whose value holds a quote, a backslash or a byte outside ASCII, or ends in a
  space, is read by the page but not, or not as it stands, by the server. A page reads
  what the server sends exactly when no cookie in its scope is of that kind
  (`CookieReading.ReadersAgreeExactly`).
* The limit of two labels is described as a guard against a site claiming `co.uk`, which has
  two: the claim is honoured (`CookieDomains.SuffixesOfTwoLabelsAreHonoured`). What the limit
  does guard is exactly `CookieDomains.DomainsAreHonouredExactly`.
* Rewriting a policy again adds the nonce again (`Csp.RewriteRepeatsExactly`).
* The codec loses a byte order mark at the start of a string and replaces lone surrogates
  (`Codec.CodecRoundTrip`), and outside base64url characters its decoder accepts strings
  the server's does not (`Base64.DecodersAgreeExactly`).
* A module specifier is recovered in every file exactly when it never climbs above its
  directory and its normalised text is not empty, does not start with a slash or a scheme,
  and is not itself a token (`ModulePaths.RecoveredExactly`; `ModulePaths.IsRecoverable` is
  the condition). `../x.js` climbs (`ModulePaths.ClimbingIsLost`); `.//x.js`, asked for by
  http://site/a/b.js, is read as `/x.js` and gives http://site/x.js
  (`SampleBrowser.EmptySegmentIsLost`); `./` and `./a:b.js` are lost in the same way.
* A site's own path under `/p/` is proxied, but when a module asks for it the `/p/` is
  taken for the proxy's and dropped, which is right only in a file that lies in `/p`
  (`ModulePaths.OwnPathsExactly`).
* A stored password hash whose key field is empty accepts every password
  (`Password.AcceptsEverythingExactly`); none that the program makes is of that form
  (`Password.FreshHashesHaveKeys`).
* The limiter lets the first attempt of a window pass even when the limit is not positive
  (`RateLimiters.LimitHoldsWhenPositive`).
* The guard against an empty srcset candidate and the retry after a `<` and a letter never
  fire (`Values.CandidatesAreCandidates`, `HtmlScanners.TagStarts`).

## Model

| member | source | states |
|---|---|---|
| HtmlRewrite.StructurePreserved | server/internal/proxy/rewrite/scan.go:233-354 | Tokenizing the rewritten document yields the source's tokens in order, each start tag edited and each stylesheet replaced by its CSS image, if and only if no tag of the document merges attributes; so no tag, comment or raw-text boundary appears, moves or vanishes |
| HtmlRewrite.IdenticalExactlyWhenUnedited | server/internal/proxy/rewrite/scan.go:233-354 | A document no token of which is edited comes back byte for byte, truncated or not; and where nothing merges, only such a document does |
| Readings.DocumentsReadAsMeant | server/internal/proxy/rewrite/scan.go:233-423 | Where nothing merges, a browser reads in the output what it read in the source, in order, with each attribute of the literal table resolved, candidate lists, pings, styles and refreshes rewritten, a base's href and a stylesheet's digest gone, and every other attribute, text and comment as it was |
| Readings.TokensReadAsMeant | server/internal/proxy/rewrite/scan.go:302-423 | The same of every single token, whatever else the document holds |
| Documents.AnchorsResolve | server/internal/proxy/rewrite/scan.go:360-380 | In any document, `<a href="v">` comes out with v resolved and escaped, and the rest of the document as it comes out alone |
| Documents.UrlsResolve | server/internal/proxy/rewrite/scan.go:48-83 | So does each URL attribute on each of its elements, in any case, after any white space and in either quotes |
| Documents.BareLinksResolve | server/internal/proxy/rewrite/scan.go:335-346 | An unquoted link that is resolved gains quotes |
| Documents.ScriptsResolve | server/internal/proxy/rewrite/scan.go:262-292 | A script or iframe URL is resolved and the text of the element copied |
| Documents.ListsResolve | server/internal/proxy/rewrite/scan.go:360-380 | A srcset, ping or style is rewritten by its own rule |
| Documents.RefreshesResolve | server/internal/proxy/rewrite/scan.go:360-423 | A meta refresh has the URL of its content resolved |
| Documents.OthersStay | server/internal/proxy/rewrite/scan.go:44-83 | An attribute that is on no list keeps its value and its text |
| Documents.BaseIsSpent | server/internal/proxy/rewrite/scan.go:318-330 | A base loses its href and nothing else |
| Documents.SheetsLoseTheirDigest | server/internal/proxy/rewrite/scan.go:308-317 | A link loses its integrity if and only if its rel or as names a stylesheet |
| Documents.RawTextIsCopied | server/internal/proxy/rewrite/scan.go:28-43 | The text of each raw-text element is copied up to its first end tag, and that of a style rewritten as CSS |
| Documents.TextIsCopied | server/internal/proxy/rewrite/scan.go:233-243 | Text is copied |
| Documents.CommentsAreCopied | server/internal/proxy/rewrite/scan.go:246-254 | A comment is copied, whatever markup it holds |
| Documents.MarkupIsCopied | server/internal/proxy/rewrite/scan.go:256-264 | So is a declaration or an end tag |
| Documents.PlaintextIsCopied | server/internal/proxy/rewrite/scan.go:274-279 | So is everything after plaintext |
| Merging.StructureCanBreak | server/internal/proxy/rewrite/scan.go:308-330 | Two documents whose structure the rewriter breaks: a nameless attribute, and a stray slash, next to a dropped attribute |
| Merging.OtherTagsAreSafe | server/internal/proxy/rewrite/scan.go:308-330 | In every tag but link and base nothing can merge |
| TokenRoundTrip.TokensRoundTrip | server/internal/proxy/rewrite/scan.go:233-297 | A token sequence survives printing and tokenizing if and only if its tokens fit next to each other |
| TokenRoundTrip.PrintTokenize | server/internal/proxy/rewrite/scan.go:233-297 | Printing then tokenizing recovers every well-fitting sequence, in every mode |
| TokenRoundTrip.TokenizeIsWell | server/internal/proxy/rewrite/scan.go:233-297 | What the tokenizer produces always fits together |
| Tokens.TokensCover | server/internal/proxy/rewrite/scan.go:233-297 | The tokens of a document print back to it: no byte is lost, copied twice or moved |
| StartTag.RoundTrip | server/internal/proxy/rewrite/scan.go:111-190 | A tag's syntax tree survives printing and scanning, whatever follows it, if and only if it is well formed |
| StartTag.PrintParse | server/internal/proxy/rewrite/scan.go:111-190 | Printing then scanning recovers a well-formed tag, including tags cut off by the end of the document |
| StartTag.ParseCovers | server/internal/proxy/rewrite/scan.go:111-190 | Scanning a tag consumes exactly the text its tree prints to, and a tag without an end consumes everything |
| StartTag.ParseIsWellFormed | server/internal/proxy/rewrite/scan.go:111-190 | Every scan gives a well-formed tree |
| TagEdit.ApplyWellFormed | server/internal/proxy/rewrite/scan.go:302-354 | Dropping and changing attributes keeps a tag well formed if and only if no drop lets its neighbours merge |
| TagEdit.EditedTagRoundTrip | server/internal/proxy/rewrite/scan.go:302-354 | The rewritten tag scans to the edited tree and ends where it should, whatever follows, if and only if nothing merges |
| Rules.EditedAttrDecodes | server/internal/proxy/rewrite/scan.go:340-380 | A kept or changed attribute keeps its name, and its text decodes to the value the rules prescribe, in the author's quotes or in new ones |
| Rules.SurvivorsInOrder | server/internal/proxy/rewrite/scan.go:302-354 | The attributes of the edited tag are the surviving ones in order, with the changed values spliced in |
| Scanner.ParseStartTag | server/internal/proxy/rewrite/scan.go:111-190 | The index loop records exactly the spans of the tag's syntax tree, or reports that there is no name |
| Scanner.ParseAttrAt | server/internal/proxy/rewrite/scan.go:145-188 | One attribute: its name, value and quote spans, and a strict advance to the text after it |
| Splice.SpansInOrder | server/internal/proxy/rewrite/scan.go:111-190 | Recorded spans are ordered, disjoint and inside the tag, and the bounds within each are monotone |
| Splice.SpansRecord | server/internal/proxy/rewrite/scan.go:111-190 | The spans are those of the named attributes in order, and each value span holds the raw value |
| Splice.WriteFromPrints | server/internal/proxy/rewrite/scan.go:308-353 | Copying source slices between spans and splicing changed values writes exactly the printed form of the edited tag |
| HtmlScanners.HtmlScanner.WriteStartTag | server/internal/proxy/rewrite/scan.go:302-354 | Appends the printed form of the edited tag to the output and nothing else |
| HtmlScanners.HtmlScanner.NewValue | server/internal/proxy/rewrite/scan.go:360-380 | Reports a change exactly when the rules give a different value, and that value |
| HtmlScanners.HtmlScanner.RewritesOwnBody | server/internal/proxy/rewrite/scan.go:385-408 | True exactly for a link that names a stylesheet in rel or as |
| HtmlScanners.HtmlScanner.IsRefreshMeta | server/internal/proxy/rewrite/scan.go:410-423 | True exactly for a meta whose http-equiv decodes to refresh |
| HtmlScanners.HtmlScanner.CopyTag | server/internal/proxy/rewrite/scan.go:266-292 | A start tag, and the raw text, style body or plaintext after it, add exactly the output of the text they consume |
| HtmlScanners.HtmlScanner.Run | server/internal/proxy/rewrite/scan.go:233-297 | The whole pass appends the printed form of the rewritten token sequence |
| EndTags.FindEndTag | server/internal/proxy/rewrite/scan.go:196-209 | The least position at or after the start where a matching end tag begins, or the end of the document |
| EndTags.HasTagNameAt | server/internal/proxy/rewrite/scan.go:211-223 | True exactly when a matching, properly delimited end tag begins two bytes before the position |
| EndTags.EndAfterText | server/internal/proxy/rewrite/scan.go:196-223 | A text followed by an end tag ends there if and only if no end tag starts inside it |
| CharRefs.UnescapeEscape | server/internal/proxy/rewrite/scan.go:602-666 | Decoding an escaped value gives the value back, for every value and either quote |
| CharRefs.EscapedKeepsQuotes | server/internal/proxy/rewrite/scan.go:657-666 | An escaped value never contains the quote it is placed in |
| CharRefs.EscapeCons | server/internal/proxy/rewrite/scan.go:657-666 | The successive replacements escape character by character: a later pass never touches what an earlier one inserted |
| CharRefs.UnescapeHTML | server/internal/proxy/rewrite/scan.go:602-626 | The decoding loop computes the recursive decoding of character references, named, decimal and hexadecimal |
| References.NamedReferences | server/internal/proxy/rewrite/scan.go:628-641 | Each named reference, in any case, decodes to its character |
| References.NumericReferences | server/internal/proxy/rewrite/scan.go:642-652 | Every code point decodes from its number, in decimal and in hexadecimal after either x |
| References.OthersStandForThemselves | server/internal/proxy/rewrite/scan.go:602-626 | An ampersand with no semicolon, or with a name of twelve characters or more, stands for itself |
| References.EscapesAre | server/internal/proxy/rewrite/scan.go:657-666 | A value is escaped character by character, the ampersand and its own quote alone |
| Values.SrcsetCommutes | server/internal/proxy/rewrite/scan.go:430-472 | Parsing a rewritten srcset gives the same candidates in order, URLs resolved and descriptors unchanged |
| ValueTexts.TwoCandidates | server/internal/proxy/rewrite/scan.go:430-472 | Two candidates with descriptors come out with both URLs resolved, whatever commas the URLs hold |
| Values.CandidatesAreCandidates | server/internal/proxy/rewrite/scan.go:434-457 | Every candidate has a URL, so the source's empty-candidate branch is unreachable |
| Values.RewriteSrcset | server/internal/proxy/rewrite/scan.go:430-472 | The loop writes the candidates in order with their URLs resolved |
| Values.UrlListCommutes | server/internal/proxy/rewrite/scan.go:476-485 | A rewritten URL list holds the resolved URLs in order |
| Values.RewriteURLList | server/internal/proxy/rewrite/scan.go:476-485 | The in-place loop over the fields, and the join |
| ValueTexts.TwoUrls | server/internal/proxy/rewrite/scan.go:476-485 | Two URLs between any white space come out resolved, one space apart |
| Values.RefreshCommutes | server/internal/proxy/rewrite/scan.go:490-527 | A rewritten refresh value keeps its delay and text before the URL and resolves the URL; one without a URL is unchanged |
| Values.RewriteMetaRefresh | server/internal/proxy/rewrite/scan.go:490-527 | The source's scan and splice compute that rewriting |
| ValueTexts.RefreshTexts | server/internal/proxy/rewrite/scan.go:490-527 | A refresh value, with its URL bare or in quotes, resolves the URL inside and drops the quotes and what follows them |
| DocumentBase.PreScanAgrees | server/internal/proxy/rewrite/scan.go:533-595 | The pre-scan returns the first usable base href among the tokens before the head ends, or the target, for every document in whose head no declaration or end tag holds anything it acts on |
| BaseAgreement.PreScanAgreesExactly | server/internal/proxy/rewrite/scan.go:533-595 | Whatever the document's URL and its references resolve to, the pre-scan and the tokens give one base if and only if both meet the same base hrefs in the same first order |
| BaseAgreement.ScanBaseIs | server/internal/proxy/rewrite/scan.go:533-595 | The pre-scan returns the first usable one of the hrefs it meets, or the target |
| BaseAgreement.BaseOfIs | server/internal/proxy/rewrite/scan.go:233-297 | So do the tokens, of the hrefs they hold |
| DocumentBase.PreScanCanDisagree | server/internal/proxy/rewrite/scan.go:549-559 | A declaration holding a base tag gives the pre-scan a base the tokenizer never sees |
| DocumentBase.PreScanDisagrees | server/internal/proxy/rewrite/scan.go:549-595 | On `<!<base href=x>` the two do differ, as soon as x resolves to another page |
| DocumentBase.FindDocumentBase | server/internal/proxy/rewrite/scan.go:533-595 | The index loop computes the pre-scan |
| BaseTexts.BaseTagDecides | server/internal/proxy/rewrite/scan.go:560-579 | A base tag whose href is usable gives the base, and any other is stepped over |
| BaseTexts.HeadElementsArePassed | server/internal/proxy/rewrite/scan.go:68-75 | Each other element of a head is stepped over, with or without an attribute |
| BaseTexts.HeadTextIsPassed | server/internal/proxy/rewrite/scan.go:586-591 | So is the text of a script, style, title or noscript |
| BaseTexts.BodyElementsStop | server/internal/proxy/rewrite/scan.go:580-585 | Any other element ends the search at the document's own URL |
| BaseTexts.HeadEndStops | server/internal/proxy/rewrite/scan.go:548-551 | So does the end tag of the head |
| BaseTexts.EndTagsArePassed | server/internal/proxy/rewrite/scan.go:548-555 | Any other end tag is stepped over |
| BaseTexts.CommentsArePassed | server/internal/proxy/rewrite/scan.go:540-547 | So is a comment, whatever it holds |
| BaseTexts.TextIsPassed | server/internal/proxy/rewrite/scan.go:533-539 | So is text |
| DocumentBase.HTML | server/internal/proxy/rewrite/rewrite.go:49-55 | The entry point rewrites the body against the base the pre-scan finds |
| Hash.AndMask | server/internal/webengine/assets/rewriter.js:168-176 | Masking with 2^k - 1 is reduction modulo 2^k, so the browser's masked integers are the server's wrapping ones |
| Hash.Fnv1a64 | server/internal/proxy/cookies.go:56-67 | The server's loop computes 64-bit FNV-1a |
| Hash.Fnv1a64Masked | server/internal/webengine/assets/rewriter.js:168-176 | The browser's loop, on unbounded integers, computes the same hash of the lower-cased string |
| Vectors.HashIsFnv1a | server/internal/proxy/cookies.go:52-65 | The hash is 64-bit FNV-1a with the published constants |
| Vectors.XorIsBitwise | server/internal/proxy/cookies.go:56-65 | Its exclusive or is taken bit by bit |
| Vectors.FnvOfA | server/internal/proxy/cookies.go:56-65 | The hash of "a" is the published one |
| Vectors.CharactersAre | server/internal/proxy/rewrite/scan.go:670-682 | The white space of HTML and of trimming, letters and folding, character by character |
| Hash.HexInjective | server/internal/proxy/cookies.go:71-77 | Different hashes have different hexadecimal forms |
| CookieScope.PrefixIsUnique | server/internal/proxy/cookies.go:71-77 | At most one prefix fits a name although the hex varies in length and may contain d |
| CookieScope.ScopesAgree | server/internal/webengine/assets/rewriter.js:215-232 | Server and browser choose the same scope for every Domain attribute and host |
| CookieDomains.ScopesAreOwn | server/internal/proxy/cookies.go:85-97 | A scope never reaches past the host that claims it, and without a Domain it is that host |
| CookieDomains.HostsFold | server/internal/proxy/cookies.go:85-90 | Hosts are compared folded and without a dot at their end |
| CookieDomains.DomainsAreHonouredExactly | server/internal/proxy/cookies.go:85-97 | A Domain is honoured if and only if it has two labels and the claiming host is inside it |
| CookieDomains.SitesMayClaimTheirDomain | server/internal/proxy/cookies.go:85-97 | Every host at or under a domain may claim it, plainly, with a leading dot or in capitals |
| CookieScope.ScopesExact | server/internal/proxy/cookies.go:85-120 | The scopes listed for a host are exactly those that match it: the host itself, or a dotted domain it equals or ends with after a dot |
| CookieScope.ParentsAreSuffixes | server/internal/proxy/cookies.go:102-120 | The parent-domain loop lists exactly the dotted suffixes that follow a dot |
| CookieScope.CookiePrefix | server/internal/proxy/cookies.go:71-77 | The server's prefix of a scope |
| CookieScope.BrowserCookiePrefix | server/internal/webengine/assets/rewriter.js:178-180 | The browser computes the same prefix |
| CookieScope.ScopePrefixes | server/internal/proxy/cookies.go:102-120 | The loop that shortens the host lists the prefixes of the host's scopes, in order |
| CookieScope.BrowserScopePrefixes | server/internal/webengine/assets/rewriter.js:185-204 | The browser's loop lists the same prefixes |
| CookieJar.DeliveryIsExact | server/internal/proxy/cookies.go:85-202 | A cookie host a sets with Domain d reaches host b under its own name if b is in its scope, and not at all otherwise |
| CookieDomains.DeliveryByDomain | server/internal/proxy/cookies.go:85-202 | On hosts and Domain alone: a cookie reaches host b if and only if b set it, or the Domain has two labels and covers both |
| CookieDomains.SuffixesOfTwoLabelsAreHonoured | server/internal/proxy/cookies.go:45-50 | A host under co.uk may claim co.uk, and another host under it receives the cookie |
| CookieDomains.ForeignHostsReceiveNothing | server/internal/proxy/cookies.go:85-202 | Whatever the Domain says, a host that shares no domain of two labels with the setter receives nothing |
| CookieJar.RunIsIdeal | server/internal/proxy/cookies.go:129-162 | After any run the shared jar holds exactly what a jar keyed by scope and name would, entry by entry |
| CookieJar.RunsDeliverExactly | server/internal/proxy/cookies.go:129-202 | After any run, a request carries in jar order the names and values of exactly the cookies in its scope, and no unprefixed one |
| CookieDomains.CookiesComeFromOwners | server/internal/proxy/cookies.go:129-202 | After any run, each cookie a request carries was set, with that value, by the host itself or one that shares a domain of two labels with it |
| CookieDomains.FreshCookiesArrive | server/internal/proxy/cookies.go:129-202 | After any run, the cookie set last is on the next request of every host that is to receive it |
| CookieJar.StripPacked | server/internal/proxy/cookies.go:192-202 | Of any list of prefixes a packed name loses exactly its own |
| CookieJar.StripCookiePrefix | server/internal/proxy/cookies.go:192-202 | The loop finds the name under the first prefix that fits, if any |
| CookieText.UnpackCookies | server/internal/proxy/cookies.go:171-190 | The builder loop writes the in-scope cookies in jar order, separated by semicolons |
| CookieAttributes.HeadersAreWritten | server/internal/proxy/cookies.go:171-190 | A Cookie header is its cookies in order, a semicolon and a space apart |
| CookieText.PagesReadTheirEntries | server/internal/webengine/assets/client.js:324-343 | A page reads exactly the entries of the jar in its scope, in order and under their own names |
| CookieReading.PagesReadWhatServersSend | server/internal/proxy/cookies.go:171-190 | What a page reads from document.cookie is what the server, after parsing the same Cookie header, sends upstream, if every cookie in scope is one that Go reads as it stands |
| CookieReading.ReadersAgreeExactly | server/internal/proxy/cookies.go:171-190 | For every jar, if and only if: each cookie is out of the page's scope, or its name is a token and its value has no quote, backslash, control or non-ASCII byte and no space at its end |
| CookieReading.OneCookieExactly | server/internal/proxy/cookies.go:171-190 | The same for a single cookie in scope: the two readings agree if and only if Go reads it as it stands |
| CookieAttributes.SurvivesExactly | server/internal/proxy/cookies.go:171-190 | The cookies Go reads as they stand, by the characters of their names and values |
| CookieText.WritesFillTheServersSlot | server/internal/webengine/assets/client.js:344-379 | Every write with an equals sign goes into the slot the server would choose for its name and last Domain, with its value and the attributes other than Domain and Path in order; any other is ignored |
| CookieText.WritesInParts | server/internal/webengine/assets/client.js:344-379 | The same for a name, a value and any list of attributes put together |
| CookieText.LastDomainCounts | server/internal/webengine/assets/client.js:355-367 | The domain is that of the last Domain attribute, or none |
| CookieText.PlainAndDomainWrites | server/internal/webengine/assets/client.js:344-379 | A plain write fills the host-only slot, a write for a Domain the slot of that Domain |
| CookieAttributes.WritesReachTheirServers | server/internal/webengine/assets/client.js:344-379 | A page's write is stored with its value and other attributes, and reaches host b if and only if the page's host and the last Domain let it |
| CookieAttributes.AttributesCount | server/internal/webengine/assets/client.js:355-367 | In any case and spacing, a Domain counts, a Path is dropped, and any other attribute is passed on |
| CookieAttributes.FlagsArePassedOn | server/internal/webengine/assets/client.js:355-367 | So is an attribute without a value |
| CookieText.WriteCookie | server/internal/webengine/assets/client.js:344-379 | The setter's parsing loop gives the cookie line that is written, or none for a malformed one |
| WebStorage.SitesAreIsolated | server/internal/webengine/assets/client.js:398-469 | After any interleaving of operations by any sites, each operation is answered as the site's own store would answer it |
| WebStorage.SitesReadTheirLastWrite | server/internal/webengine/assets/client.js:398-469 | After any interleaving, a site reads what it stored last under a key, and nothing once it removed the key or cleared its store |
| WebStorage.KeysInOrder | server/internal/webengine/assets/client.js:398-469 | A new key is listed last, a stored one keeps its place and a removed one goes |
| KeyedList.PutGet | server/internal/webengine/assets/client.js:398-469 | What is stored under a key is read back, and nothing else changes |
| KeyedList.DeleteGet | server/internal/webengine/assets/client.js:398-469 | A removed key reads as nothing, and nothing else changes |
| WebStorage.RunsSeparate | server/internal/webengine/assets/client.js:398-469 | What a site sees of the shared store after a run is its own store after its own operations, in order |
| WebStorage.OtherStep | server/internal/webengine/assets/client.js:398-469 | A site's operation changes nothing its prefix does not mark: other sites' keys and unprefixed ones, in order |
| WebStorage.ClearEmpties | server/internal/webengine/assets/client.js:435-469 | Clearing leaves the site no key |
| WebStorage.Shim.Clear | server/internal/webengine/assets/client.js:435-469 | The deleting loop removes the site's keys and only those |
| WebStorage.Shim.GetItem | server/internal/webengine/assets/client.js:435-469 | Reads the site's value under its prefix |
| WebStorage.Shim.SetItem | server/internal/webengine/assets/client.js:435-469 | Writes the site's key and no other |
| WebStorage.Shim.RemoveItem | server/internal/webengine/assets/client.js:435-469 | Removes the site's key and no other |
| WebStorage.Shim.Key | server/internal/webengine/assets/client.js:435-469 | The site's i-th key without its prefix, or none |
| WebStorage.OwnKeys | server/internal/webengine/assets/client.js:561-570 | The loop lists the site's keys in order without their prefix |
| Base64.DecodeEncode | server/internal/proxy/link/link.go:30-65 | Decoding undoes encoding for every byte string, in both alphabets |
| Vectors.AlphabetIs | server/internal/proxy/link/link.go:30-65 | The digits of both alphabets are those of RFC 4648 |
| Vectors.Base64Vectors | server/internal/proxy/link/link.go:30-65 | The examples of section 10 of RFC 4648 |
| Base64.EncodersAgree | server/internal/webengine/assets/codec.js:12-19 | The browser's padded, translated and trimmed encoding is the server's |
| Base64.DecodersAgree | server/internal/webengine/assets/codec.js:21-32 | On every string of base64url characters both decoders give the same bytes or both refuse |
| Base64.DecodersAgreeExactly | server/internal/webengine/assets/codec.js:21-32 | On any string, if and only if: when it holds base64url characters and line breaks alone, the breaks do not mislead the padding; otherwise the browser refuses it |
| Base64.BrowserReadsExactly | server/internal/webengine/assets/codec.js:21-32 | The strings the browser reads, by their body and the equals signs after it, and the bytes it reads |
| Codec.EncodeToken | server/internal/webengine/assets/codec.js:12-19 | The loop over the UTF-8 bytes computes the token of a string |
| Codec.DecodeToken | server/internal/webengine/assets/codec.js:21-32 | The padding and filling loops compute the decoded string, or report the refusal |
| Codec.CodecRoundTrip | server/internal/webengine/assets/codec.js:12-32 | Decoding recovers a string from its token if and only if it has no lone surrogate and does not start with a byte order mark |
| Codec.RunesOfUtf8 | server/internal/webengine/assets/codec.js:12-32 | UTF-8 decoding undoes encoding, lone surrogates replaced |
| Codec.AsciiIsItself | server/internal/webengine/assets/codec.js:12-19 | The token of an ASCII string is the server's |
| Link.LinksDecode | server/internal/proxy/link/link.go:30-65 | Decoding a link, with or without further segments, gives the URL it was made from, or the error for that kind of target |
| LinkTargets.TargetsDecode | server/internal/proxy/link/link.go:42-65 | A link to an http or https URL with a host decodes to it; another scheme, a missing host and a syntax error are refused, each with its own error |
| LinkTargets.OthersAreRefused | server/internal/proxy/link/link.go:42-65 | So are a path without a token and one that is not base64url |
| Link.EncodedIsLink | server/internal/proxy/link/link.go:30-37 | A link is /p/ and base64url characters: no slash, quote, comma, space or padding |
| Link.RequestsDecode | server/internal/proxy/link/link.go:76-86 | A request for a link carries its target; a query on the request takes the place of the target's and nothing else changes |
| LinkTargets.RequestsCarryTargets | server/internal/proxy/link/link.go:76-86 | The same for an http or https URL with a host, field by field |
| Link.ResolveResolves | server/internal/proxy/link/link.go:92-112 | A resolved reference is the reference itself or a link, as the HTML rewriter assumes |
| Link.ResolvedDecodes | server/internal/proxy/link/link.go:92-112 | A resolved navigational reference decodes to the absolute URL it stands for |
| LinkTargets.ReferencesResolve | server/internal/proxy/link/link.go:92-112 | A reference becomes the link of its http or https URL, unless it is empty or starts with one of the nine schemes and marks that lead nowhere; otherwise it stays |
| ModulePaths.RecoveredExactly | server/internal/webengine/assets/rewriter.js:120-150 | A specifier is mapped to what it means in every file if and only if it never climbs above its directory and its normalised text is not empty, starts with no slash or scheme, and is no token or engine path |
| ModulePaths.WreckageIsRecoverable | server/internal/webengine/assets/rewriter.js:120-150 | Under that condition, reading the text after the prefix of the requested path against the file leads where the specifier does |
| ModulePaths.WreckageText | server/internal/webengine/assets/rewriter.js:120-150 | Under it, the requested path is the prefix and a relative reference with the normalised specifier's segments |
| ModulePaths.OwnPathsExactly | server/internal/webengine/assets/rewriter.js:136-147 | A module's request for a site's own path under /p/ leads where that path does if and only if the file lies in /p and the rest is a plain name, or in the one case of the directory itself |
| ModulePaths.NormalizeUnder | server/internal/webengine/assets/rewriter.js:120-150 | Removing dot segments leaves alone the directory a specifier never climbs out of |
| ModulePaths.ClimbingIsLost | server/internal/webengine/assets/rewriter.js:120-150 | A concrete climbing specifier, resolved to the wrong file |
| Proxying.ModuleRecovery | server/internal/webengine/assets/rewriter.js:105-154 | A module request made from a recoverable relative specifier in a proxied file is mapped to the URL the specifier means in the real file, with the request's query and fragment |
| SampleBrowser.RecoveryHappens | server/internal/webengine/assets/rewriter.js:105-154 | In a browser that resolves paths and meets every hypothesis, a module's request is mapped to the file it meant, which is not the one its own path names |
| SampleBrowser.EmptySegmentIsLost | server/internal/webengine/assets/rewriter.js:120-150 | In it, a module's request for `.//x.js` is mapped to a file it did not mean, although the specifier never climbs |
| SampleBrowser.IsSound | server/internal/webengine/assets/rewriter.js:29-54 | That browser reparses what it prints, refuses a base that does not parse, and keeps links |
| SampleBrowser.DoesResolvePaths | server/internal/webengine/assets/rewriter.js:120-150 | It resolves relative references by their paths |
| SampleBrowser.NestingHappens | server/internal/webengine/assets/rewriter.js:120-150 | In it, a script's request for a mailto name is given a link that is wrapped again when it is requested |
| Proxying.RewritesDoNotNest | server/internal/webengine/assets/rewriter.js:105-154 | Rewriting a rewritten request returns it unchanged, for any client and destination, when its target is http(s) |
| Proxying.NestsExactly | server/internal/webengine/assets/rewriter.js:105-154 | Rewriting a rewritten request leaves it alone if and only if its target is http(s), or the requesting page is not proxied, or the resolver refuses the link against that page's URL |
| Proxying.OwnPathsAreProxied | server/internal/webengine/assets/rewriter.js:29-62 | A request on the proxy's origin that is no link, such as a site's own /p/ path, is still proxied for every destination: to what its path means, or for a module what stands after /p/ in it |
| Requests.CrossOriginIsProxied | server/internal/webengine/assets/rewriter.js:152-153 | A request to another origin is given the link of its own URL, for every client and destination, and the link leads back to it |
| Requests.OwnOriginIsMapped | server/internal/webengine/assets/rewriter.js:105-151 | A request to the proxy's origin is left alone when its path is the proxy's own or it comes from no proxied page, and otherwise given the link of what it means there |
| Requests.UnparsedStays | server/internal/webengine/assets/rewriter.js:105-111 | A request that does not parse stays as it is |
| Requests.OwnPathsExactly | server/internal/webengine/assets/rewriter.js:29-62 | A path is the proxy's own if and only if it names an engine asset or holds the base64 of an http(s) URL |
| Requests.PageUrlsAreProxied | server/internal/webengine/assets/client.js:21-48 | A page's URL is given the link of what it means, unless it leads nowhere, is the proxy's own, does not parse or is neither http nor https; then it stays |
| Proxying.ToProxyIsIdempotent | server/internal/webengine/assets/client.js:21-48 | Wrapping a URL twice is wrapping it once, for every input |
| Proxying.LinkDecodes | server/internal/webengine/assets/rewriter.js:29-54 | The path of a link decodes to its target exactly when that is an http(s) URL, and is never taken for the engine's own |
| Csp.RewriteIsIdempotent | server/internal/proxy/csp.go:80-115 | Without a nonce, rewriting a policy twice is rewriting it once |
| Csp.RewriteRepeatsExactly | server/internal/proxy/csp.go:80-115 | With a nonce, if and only if every directive that governs scripts lists it already |
| Csp.RewrittenPolicy | server/internal/proxy/csp.go:80-115 | Parsing the rewritten policy gives the translated directives in order |
| Csp.RewrittenSources | server/internal/proxy/csp.go:80-155 | Every source list in the output is local; with a nonce every script-governing directive ends in it and never says none |
| Csp.TranslatedIsLocal | server/internal/proxy/csp.go:121-145 | A translated list holds only keywords, nonces, hashes and local schemes, each once |
| Csp.TranslateIsFirsts | server/internal/proxy/csp.go:121-145 | Translating maps every source and keeps the first of equals: nothing is lost, added or moved |
| CspGrants.NothingIsGranted | server/internal/proxy/csp.go:121-145 | Each source of a translation is 'self' or was listed, to the letter for a nonce or hash and otherwise up to case |
| CspGrants.ListedIsServed | server/internal/proxy/csp.go:121-145 | Each listed keyword, nonce, hash and local scheme stays, and any other source is served by 'self' |
| CspGrants.SelfExactly | server/internal/proxy/csp.go:121-145 | A translation grants 'self' if and only if the site listed it, a host or another scheme |
| CspGrants.PoliciesCarryOver | server/internal/proxy/csp.go:80-115 | The rewritten policy has the site's directives in order without those that report, five kinds as they stand, and each other granting what the site listed, with the nonce last in script-src, script-src-elem and default-src |
| Csp.TranslateIsIdempotent | server/internal/proxy/csp.go:121-145 | Translating twice is translating once |
| Csp.TranslateCSPSources | server/internal/proxy/csp.go:121-145 | The loop with its set of seen sources computes the translation |
| Csp.RemoveCSPSource | server/internal/proxy/csp.go:147-155 | Compacting the array in place leaves the other sources in order |
| Csp.Rewrite | server/internal/proxy/csp.go:80-115 | The loop over the directives writes the rewritten policy |
| RateLimiters.RateLimiter.Allow | server/internal/auth/ratelimit.go:34-45 | Answers and updates the table as one step of the specification, changing no other key |
| RateLimiters.RateLimiter.Reset | server/internal/auth/ratelimit.go:48-52 | Forgets the key and nothing else |
| RateLimiters.IntervalBound | server/internal/auth/ratelimit.go:34-52 | With a steady clock and no reset of the key, any interval of one window length sees at most twice the limit |
| RateLimiters.WindowBound | server/internal/auth/ratelimit.go:34-45 | In its window a key has been allowed exactly the attempts it made, up to the limit |
| RateLimiters.LimitHoldsWhenPositive | server/internal/auth/ratelimit.go:34-45 | No run exceeds the limit in a window if and only if the limit is positive |
| RateLimiters.KeysAreIndependent | server/internal/auth/ratelimit.go:34-52 | What a key is answered depends on its own calls alone |
| RateLimiters.AttemptsAreAllowedAgain | server/internal/auth/ratelimit.go:34-52 | After any run, an attempt is allowed when its key made none in the last window length, or fewer than the limit, and after a reset |
| RateLimiters.BurstsAreCutOff | server/internal/auth/ratelimit.go:34-45 | Of a burst in a fresh window the first attempts pass, as many as the limit says but always one, and then none until the window ends |
| Pbkdf2.DeriveKey | server/internal/auth/pbkdf2.go:11-42 | The nested loops with reused buffers compute the key of section 5.2 of RFC 8018, of exactly the length asked for |
| Pbkdf2.DeriveBlock | server/internal/auth/pbkdf2.go:21-39 | One block: the accumulator is U_1 xor ... xor U_c, although u is overwritten each round |
| Pbkdf2.ShorterKeysArePrefixes | server/internal/auth/pbkdf2.go:11-42 | A shorter key is a prefix of a longer one |
| Vectors.BlocksXorTheirChain | server/internal/auth/pbkdf2.go:21-39 | A block is the exclusive or, byte by byte, of the chain that starts at the salt and its number |
| Vectors.KeysAreBlocks | server/internal/auth/pbkdf2.go:11-42 | A key of several blocks is theirs in order, from number one on |
| Pbkdf2.IntBytesIsBigEndian | server/internal/auth/pbkdf2.go:23-26 | Any four octets are the counter bytes of the number they denote, most significant first |
| Pbkdf2.XorInto | server/internal/auth/pbkdf2.go:35-37 | The inner loop xors the whole buffer, byte by byte |
| Password.HashPassword | server/internal/auth/password.go:32-44 | Prints the scheme, iteration count, salt and derived key |
| Vectors.HashesAreWritten | server/internal/auth/password.go:16-44 | The text of a fresh hash, and the first two counters |
| Password.VerifyPassword | server/internal/auth/password.go:49-68 | Parses the stored hash, each malformed part an error, and compares the derived keys |
| Password.ParsePrint | server/internal/auth/password.go:32-68 | Parsing recovers the iteration count, salt and key of every printed hash |
| Password.StoredHashAccepts | server/internal/auth/password.go:49-68 | A stored hash accepts exactly the passwords that derive its key, whatever its iteration count and key length |
| Password.AcceptsEverythingExactly | server/internal/auth/password.go:49-68 | A stored hash accepts every password, whatever the hash function, if and only if it is well formed with an empty key field |
| Password.FreshHashesHaveKeys | server/internal/auth/password.go:32-68 | Every salt and count has such a stored form, but the key of a fresh hash has 32 bytes |
| Password.HashAcceptsItsPassword | server/internal/auth/password.go:32-68 | A fresh hash accepts its password under every salt, and another exactly when both derive the same key |

## Left out

- Case folding and white space beyond ASCII, in both languages.
- URL parsing and reference resolution, `rewriteCSS`, SHA-256 and HMAC, the clock and
  randomness are parameters; Go's parser of Cookie headers is modelled, that of Set-Cookie
  headers is not.
- Percent-encoded dot segments and references with backslashes: `ModulePaths.IsRelative`
  leaves them out. So it does references with control characters and spaces. Quotes, angle
  brackets, braces, backquotes and non-ASCII characters are percent-encoded in the paths
  browsers request, so `Proxying.ModuleRecovery` covers a specifier that holds them only
  in its encoded form.
- Cookie attributes other than the name and Domain (Secure, HttpOnly, expiry) and the
  jar's own limits.
- Constant-time comparison is plain equality; the limiter's mutex is not modelled, so its
  calls are in sequence.
- HTTP forwarding, WebSocket tunnelling, streaming, admin pages, metrics, sessions,
  settings and start-up: input and output, or simple tables.
- JavaScript proxy traps, property descriptors, IndexedDB, caches, mutation observers and
  service-worker events: only the storage methods and the key listing are modelled.
- WebStorage.SitesAreIsolated: a site is its hashed prefix; two hosts whose hashes collide
  share a store, as in the program.
- CookieJar.RunsDeliverExactly: that the hash separates the scopes of the run is a
  hypothesis.
- The loops of `parseStartTag` are separate methods of the same shape (`Scanner`), and the
  source's two unreachable branches (the retry after a letter, the empty srcset candidate)
  are not written out.
