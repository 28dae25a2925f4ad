# Security-Research tools, modelled in Dafny

This project models the deterministic core of six command-line tools from Rhino Security Labs'
Security-Research repository, and proves properties of that model. Each tool wraps a small amount
of parsing, classification or string handling in network, AWS, SQLite or ZIP input and output.
The model keeps the logic and takes what the I/O returns as inputs.

- **XXE out-of-band listener** (`xxe_server.dfy`, module `XxeServer`).
  - An HTTP handler serves a fixed external DTD, whose entity points back at the FTP handler.
  - The FTP handler answers every chunk a Java XML parser sends with the reply codes of section
    4.2 of RFC 959 that keep the transfer going.
  - Both handlers are classes whose trace of events (bytes sent, lines logged) grows as they run.
- **S3 bucket enumerator** (`buckethead.dfy`, module `BucketHead`).
  - Bucket-name permutations and the `--regions` option.
  - The work queue of (region, bucket) pairs.
  - The classification of `aws s3 ls` output into the `exists` and `listable` lists, a class
    with those two fields.
  - The keyword grep over listable buckets.
- **AWS honeytoken detector** (`awshoney_check.dfy`, module `HoneyCheck`).
  - The prioritised verdict drawn from an AccessDenied message.
  - The key's ARN, taken from the message by the regular expression `arn:.* is not`.
- **Office subdocument injector** (`subdoc_injector.dfy`, module `SubdocInjector`).
  - `UpdateableZipFile`, a class over an ordered sequence of (name, contents) entries. It has a
    pending-replacement table, and the rebuild applies that table.
  - The splice of a `subDoc` element into `word/settings.xml`.
  - The relationship-id swap of a reinfection.
  - The relationships part written beside the settings, an OPC relationships part in the sense
    of ECMA-376 Part 2.
- **CrimeFlare archive updater** (`cflareupdate.dfy`, module `CflareUpdate`).
  - The download file name and the progress bar.
  - The nsout, country and ipout record parsers, which fill the module's two tables and build the
    rows of the `cfdb` table.
  - The `'N/A'` lookups.
  - The decision which archives to fetch again.
- **Cloudflare origin finder** (`cfire.dfy`, module `Cfire`).
  - Host extraction from already-split URLs, and de-duplication.
  - CIDR membership in Cloudflare's published ranges. `ranges.dfy`, module `CloudflareRanges`,
    holds the table. Prefixes are compared as in section 3.1 of RFC 4632 and section 2.3 of
    RFC 4291, on addresses held as integers.
  - The choice among the four CrimeFlare queries.
  - `crimeflare_db_lookup`, which reports a target's records and collects the IPs it finds into a
    duplicate-free global list.

Two shared modules support the rest:

- `Outcomes`: the `Option` and `Result` types, and the collection of present values.
- `Text`: models of the Python string operations the scripts use. These are `in`, `find`, `split`,
  `join`, `strip`, whitespace `split()`, `replace`, `lower` (on ASCII letters only: see "## Left out"),
  decimal text and a subset of `str.format`.

Where the behaviour of a script could be read two ways, the model follows the code:

- In Python 2, `"timed out" in e` on an exception looks for the string among the exception's
  arguments, not in its message.
- The FTP loop ends only when a read or a send raises. A closed link returns an empty chunk, and
  the handler answers it like any other. The model places that exception between two whole turns
  (see "## Left out").
- Three places where the code as written cannot do what its authors meant are listed under
  "## Findings". Each has both an as-written member and a corrected one.

## Model

| member | source | states |
|---|---|---|
| XxeServer.Payload | tools/python/xxe-server.py:41-42 | The payload is the DTD template with the callback host in the first field and the FTP port 2121 in the second, so it starts with the entity's `ftp://host:2121/` URL. |
| XxeServer.PayloadFormat | tools/python/xxe-server.py:117-118 | Formatting the template with the host and `2121` yields exactly the head, the host, `:2121` and the tail. |
| XxeServer.Startup | tools/python/xxe-server.py:112-118 | With `argv` from `sys`, start-up succeeds exactly when a non-empty first argument is given, and then builds the payload for it. A missing argument raises IndexError and an empty one exits with status 1. |
| XxeServer.StartupAsWrittenNeverStarts | tools/python/xxe-server.py:113 | As written, start-up raises NameError for `argv` whatever the command line, so it differs from the intended start-up on every usable command line. |
| XxeServer.Response | tools/python/xxe-server.py:57 | The response is the HTTP template filled with the payload's length and the payload, and it ends with the payload and a blank line. |
| XxeServer.ResponseContentLength | tools/python/xxe-server.py:57 | A client reading the `Content-length` header of the response gets the payload's length. |
| XxeServer.ResponseIgnoresRequest | tools/python/xxe-server.py:57-63 | What the HTTP handler sends does not depend on the request it received. |
| XxeServer.WebExchange | tools/python/xxe-server.py:59-64 | One HTTP connection sends exactly the one response. |
| XxeServer.WebHandler.constructor | tools/python/xxe-server.py:48-53 | A new HTTP handler has the peer and payload it was given and an empty trace. |
| XxeServer.WebHandler.Handle | tools/python/xxe-server.py:53-64 | Handling a request appends to the trace the request log lines, the response and the reply log line. |
| XxeServer.Classify | tools/python/xxe-server.py:84-98 | The command a chunk names: ClassifyPriority proves it is LIST whenever LIST occurs, USER when USER occurs and LIST does not, and so on to SYST, and otherwise none. |
| XxeServer.ClassifyPriority | tools/python/xxe-server.py:84-98 | Each reply is chosen exactly when its keyword occurs in the chunk and no earlier one in the order LIST, USER, PORT, SYST does. A chunk with both USER and LIST gets the LIST reply. |
| XxeServer.AnswerSends | tools/python/xxe-server.py:84-98 | Each answer sends exactly its reply lines, in order, and nothing else. |
| XxeServer.ListAnswer | tools/python/xxe-server.py:84-87 | A chunk naming LIST gets three lines in order: the directory entry, then 150, then 226. |
| XxeServer.DefaultAnswer | tools/python/xxe-server.py:96-98 | A chunk with none of the four keywords gets the line `230 more data please!` alone. |
| XxeServer.TurnSends | tools/python/xxe-server.py:82-98 | What one turn sends is the reply of the command its stripped chunk names. |
| XxeServer.TurnLogsBeforeReply | tools/python/xxe-server.py:82-83 | Every turn first logs the stripped chunk, and every turn sends at least one line. |
| XxeServer.Turn | tools/python/xxe-server.py:82-98 | One pass of the loop body: TurnSends proves it sends exactly the reply lines of the stripped chunk's command, and TurnLogsBeforeReply that the Received line comes first. |
| XxeServer.Session | tools/python/xxe-server.py:71-104 | A whole connection: SessionSent proves the greeting is sent first and then only the turns' replies, and ClosingOnce that the closing line is logged exactly once, last. |
| XxeServer.TurnAt | tools/python/xxe-server.py:81-98 | The trace of all turns is, for each chunk, the turns before it, its own turn and the turns after it: one reply group per chunk, in order. |
| XxeServer.TurnsSnoc | tools/python/xxe-server.py:81-82 | Reading one more chunk adds its turn at the end of the trace. |
| XxeServer.SessionSent | tools/python/xxe-server.py:77-98 | The greeting `220 xxe-ftp-server` is the first thing sent, before any chunk is read. After it come the turns' replies and nothing else. |
| XxeServer.TurnsNoClosing | tools/python/xxe-server.py:81-98 | No turn of the loop logs the closing line. |
| XxeServer.ClosingOnce | tools/python/xxe-server.py:99-104 | The closing line is the last event of a connection, and it is logged exactly once. |
| XxeServer.ClosingAfter | tools/python/xxe-server.py:99-104 | The closing line ends the connection's events whenever the turns in between never log it. |
| XxeServer.FtpHandler.constructor | tools/python/xxe-server.py:66-71 | A new FTP handler has its peer and an empty trace. |
| XxeServer.FtpHandler.Greet | tools/python/xxe-server.py:77-79 | The handler logs the connection and sends the greeting before reading. |
| XxeServer.FtpHandler.Receive | tools/python/xxe-server.py:82-98 | One pass of the loop body appends that chunk's turn to the trace. |
| XxeServer.Reply | tools/python/xxe-server.py:84-98 | The `if`/`elif` chain sends what the command classification of the stripped chunk calls for, with LIST checked first, then USER, PORT and SYST, and otherwise asks for more data. |
| XxeServer.FtpHandler.Close | tools/python/xxe-server.py:99-104 | The exception handler logs a timeout or an error, then the closing line. |
| XxeServer.FtpHandler.Serve | tools/python/xxe-server.py:80-98 | The loop appends the turns of the chunks in the order they were read. |
| XxeServer.FtpHandler.Handle | tools/python/xxe-server.py:71-104 | A whole connection appends the greeting, one turn per chunk, then the handling of the failure that ended the loop. The failure falls between two whole turns (see "## Left out"). |
| BucketHead.StripAll | tools/aws-pentest-tools/s3/buckethead.py:45 | Every item is stripped, in place and in order. |
| BucketHead.RegionChoice | tools/aws-pentest-tools/s3/buckethead.py:45-55 | Every region the choice returns is valid. It fails with status 1 exactly when "all" is absent and some item is not a valid region. Otherwise, without "all", it returns the stripped items unchanged. |
| BucketHead.AllSelectsEveryRegion | tools/aws-pentest-tools/s3/buckethead.py:46-47 | "all" anywhere among the items selects every valid region, even beside invalid names. |
| BucketHead.DefaultRegions | tools/aws-pentest-tools/s3/buckethead.py:161 | The option's default value "all" selects every region. |
| BucketHead.RegionListRoundTrip | tools/aws-pentest-tools/s3/buckethead.py:45-55 | A comma-joined list of valid region names, none "all" and none with commas or surrounding whitespace, comes back exactly as given. |
| BucketHead.Rootword | tools/aws-pentest-tools/s3/buckethead.py:79 | The domain without its last label: RootwordShape proves it is empty without a dot and otherwise the text before the last dot. |
| BucketHead.RootwordShape | tools/aws-pentest-tools/s3/buckethead.py:79 | The root word is "" for a domain without a dot. Otherwise it is the domain's text before its last dot. |
| BucketHead.AffixNamesIff | tools/aws-pentest-tools/s3/buckethead.py:82-96 | A name comes from the affixes exactly when it is one of the seven forms of some affix. |
| BucketHead.FormsSize | tools/aws-pentest-tools/s3/buckethead.py:84-96 | One affix contributes at most seven names. |
| BucketHead.BucketNames | tools/aws-pentest-tools/s3/buckethead.py:76-97 | The set `create_bucket_list` builds: BucketNamesIff proves it holds the domain, the root word and the seven forms of each affix and nothing else, and BucketNamesSize bounds it. |
| BucketHead.BucketNamesIff | tools/aws-pentest-tools/s3/buckethead.py:76-97 | The permutations are exactly the domain, its root word and every form of every affix. |
| BucketHead.BucketNamesSize | tools/aws-pentest-tools/s3/buckethead.py:76-97 | There are at most 2 + 7 × (number of affixes) permutations. |
| BucketHead.GoogleRoot | tools/aws-pentest-tools/s3/buckethead.py:79 | The root word of "google.com" is "google". |
| BucketHead.GoogleExample | tools/aws-pentest-tools/s3/buckethead.py:70-74 | "google.com" with the affix "01" gives exactly the nine names of the docstring. |
| BucketHead.CreateBucketList | tools/aws-pentest-tools/s3/buckethead.py:76-97 | The set-building loop yields exactly the permutation set. |
| BucketHead.AllNamesIff | tools/aws-pentest-tools/s3/buckethead.py:216-220 | A name is searched exactly when it is a permutation of the domain or of some subdomain. |
| BucketHead.GenerateBuckets | tools/aws-pentest-tools/s3/buckethead.py:216-220 | The union loop over the subdomains yields exactly those names. |
| BucketHead.RegionBlock | tools/aws-pentest-tools/s3/buckethead.py:223-224 | The inner loop queues one pair per bucket for its region. |
| BucketHead.FillQueue | tools/aws-pentest-tools/s3/buckethead.py:222-224 | The queue holds one pair per region × bucket combination, each pair as often as its region is listed. |
| BucketHead.QueueCovers | tools/aws-pentest-tools/s3/buckethead.py:222-224 | A pair is queued exactly when its region is listed and its bucket was generated. |
| BucketHead.Classify | tools/aws-pentest-tools/s3/buckethead.py:128-148 | What one probe's output says: FailWins, NoMarkerListable and AccessDeniedExists prove the fail marker wins, no marker means listable, and AccessDenied alone means the bucket exists. |
| BucketHead.FailWins | tools/aws-pentest-tools/s3/buckethead.py:128-140 | Output with a fail marker means the bucket is missing, even when an exists marker is also there. |
| BucketHead.NoMarkerListable | tools/aws-pentest-tools/s3/buckethead.py:140-148 | Output with no marker at all means the bucket is listable. |
| BucketHead.AccessDeniedExists | tools/aws-pentest-tools/s3/buckethead.py:142-143 | An AccessDenied answer without a fail marker means the bucket exists but cannot be listed. |
| BucketHead.BucketList.constructor | tools/aws-pentest-tools/s3/buckethead.py:21-24 | Both result lists start empty, and `listable ⊆ exists` holds. |
| BucketHead.BucketList.LsS3 | tools/aws-pentest-tools/s3/buckethead.py:109-150 | A failed probe or a fail marker records nothing. An exists marker appends the bucket to `exists` only, and no marker appends it to both lists. `listable ⊆ exists` is preserved. |
| BucketHead.KeywordOf | tools/aws-pentest-tools/s3/buckethead.py:247 | The keyword a line gives: KeywordsIff proves every keyword is the stripped, lower-cased form of a line that is not blank, ASCII letters only (see "## Left out"). |
| BucketHead.Keywords | tools/aws-pentest-tools/s3/buckethead.py:247 | There are no more keywords than lines. |
| BucketHead.KeywordsIff | tools/aws-pentest-tools/s3/buckethead.py:247 | A keyword is exactly the lower-cased, stripped form of a line that is not blank, so no keyword is empty. Lower-casing covers ASCII letters only (see "## Left out"). |
| BucketHead.GrepAsWritten | tools/aws-pentest-tools/s3/buckethead.py:252-254 | As written, any keyword at all makes the test raise TypeError. Only an empty keyword list gets through, and then nothing is found. |
| BucketHead.GrepAsWrittenNeverFlags | tools/aws-pentest-tools/s3/buckethead.py:252-255 | As written, no bucket is ever flagged, even a listing that holds the keyword. |
| BucketHead.Flagged | tools/aws-pentest-tools/s3/buckethead.py:248-255 | At most one bucket is flagged per listing. |
| BucketHead.FlaggedIff | tools/aws-pentest-tools/s3/buckethead.py:248-255 | A bucket is flagged exactly when some keyword occurs in the lower-cased listing of that bucket. |
| BucketHead.Grep | tools/aws-pentest-tools/s3/buckethead.py:248-255 | The corrected grep loop flags exactly those buckets, in order. |
| BucketHead.AnyKeyword | tools/aws-pentest-tools/s3/buckethead.py:254 | The scan of one listing is true exactly when some keyword occurs in the lower-cased listing. |
| HoneyCheck.Classify | tools/aws-pentest-tools/awshoney_check/awshoney_check.py:50-57 | The if/elif chain over the message: the lemmas below prove which verdict each combination of markers gives, first test first, and RealWhenNoMarker that the key is real exactly when no marker occurs. |
| HoneyCheck.CanaryUserAlsoMatchesAccount | tools/aws-pentest-tools/awshoney_check/awshoney_check.py:50-55 | A canarytokens user ARN also contains the account prefix tested later. Its verdict is still the key verdict, because that test comes first. |
| HoneyCheck.SpaceCrabNeedsBoth | tools/aws-pentest-tools/awshoney_check/awshoney_check.py:52-53 | The SpaceCrab verdict holds exactly when the IAM prefix and the SpaceCrab path both occur and the canarytokens user does not. |
| HoneyCheck.AccountEitherPrefix | tools/aws-pentest-tools/awshoney_check/awshoney_check.py:54-55 | The account verdict holds exactly when the IAM or the STS prefix of the canarytokens account occurs and neither earlier test matched. |
| HoneyCheck.StsAccountVerdict | tools/aws-pentest-tools/awshoney_check/awshoney_check.py:54-55 | An STS ARN of the canarytokens account alone gives the account verdict. |
| HoneyCheck.RealWhenNoMarker | tools/aws-pentest-tools/awshoney_check/awshoney_check.py:50-57 | The keys are taken as real exactly when none of the markers occurs. |
| HoneyCheck.MatchInLine | tools/aws-pentest-tools/awshoney_check/awshoney_check.py:59 | Within one line, a match from an `arn:` ends exactly where an ` is not` fits before the line break. |
| HoneyCheck.Search | tools/aws-pentest-tools/awshoney_check/awshoney_check.py:59 | The search finds the leftmost `arn:` that starts a match, and the longest match from it. It finds nothing exactly when the pattern matches nowhere. |
| HoneyCheck.ExtractArn | tools/aws-pentest-tools/awshoney_check/awshoney_check.py:59-61 | An extracted ARN starts with `arn:` and holds no line break. |
| HoneyCheck.ExtractArnIff | tools/aws-pentest-tools/awshoney_check/awshoney_check.py:59-60 | An ARN is extracted exactly when the pattern matches somewhere in the message. |
| HoneyCheck.SearchUnique | tools/aws-pentest-tools/awshoney_check/awshoney_check.py:59 | A match with no match starting earlier, and none from its start ending later, is the one the search returns. |
| HoneyCheck.ExtractArnOf | tools/aws-pentest-tools/awshoney_check/awshoney_check.py:59-61 | For a message "… arn:NAME is not …" with no earlier `arn:`, no line break in NAME and no later ` is not`, the extracted ARN is `arn:NAME`. |
| HoneyCheck.Check | tools/aws-pentest-tools/awshoney_check/awshoney_check.py:38-63 | What the script reports: CheckCases proves one verdict and the extracted ARN for AccessDenied, and UnhandledIgnoresMessage that other errors are reported by code alone. |
| HoneyCheck.CheckCases | tools/aws-pentest-tools/awshoney_check/awshoney_check.py:38-63 | An AccessDenied error gets exactly one verdict and the extracted ARN. Any other error code is reported as unhandled. |
| HoneyCheck.UnhandledIgnoresMessage | tools/aws-pentest-tools/awshoney_check/awshoney_check.py:62-63 | An unhandled report does not depend on the message. |
| SubdocInjector.Names | tools/ms-office/subdoc-injector/subdoc_injector.py:62 | `namelist()` holds one name per entry. |
| SubdocInjector.Read | tools/ms-office/subdoc-injector/subdoc_injector.py:130 | ZipFile.read of a name: ReadDistinct proves that without repeated names it gives the contents of that name's entry. |
| SubdocInjector.ReadDistinct | tools/ms-office/subdoc-injector/subdoc_injector.py:130 | In an archive without repeated names, reading an entry's name gives that entry's contents. |
| SubdocInjector.Rebuild | tools/ms-office/subdoc-injector/subdoc_injector.py:114-131 | The rebuild loop: RebuildPending, RebuildNoNewNames and RebuildDistinct prove that visited names leave the pending table, no new name appears, and without repeated names deleted entries are dropped, buffers applied and the rest copied in order. |
| SubdocInjector.RebuildPending | tools/ms-office/subdoc-injector/subdoc_injector.py:114-123 | Every name the rebuild visits is taken out of `_replace`, and every other name stays pending. |
| SubdocInjector.RebuildNoNewNames | tools/ms-office/subdoc-injector/subdoc_injector.py:114-131 | The rebuild keeps at most one entry per entry visited and introduces no new name. |
| SubdocInjector.RebuildDistinct | tools/ms-office/subdoc-injector/subdoc_injector.py:114-131 | Without repeated names, the rebuild keeps the original order. It drops deleted entries, writes the pending contents of replaced ones and copies the others unchanged. |
| SubdocInjector.DuplicateSurvivesDelete | tools/ms-office/subdoc-injector/subdoc_injector.py:114-131 | With a repeated name, only the first copy takes the pending change, so the second copy of a deleted name survives. |
| SubdocInjector.Patch | tools/ms-office/subdoc-injector/subdoc_injector.py:122-131 | Patching keeps one entry per entry. |
| SubdocInjector.ApplyBuffers | tools/ms-office/subdoc-injector/subdoc_injector.py:122-131 | With only buffers pending and every entry reading back as itself, the rebuild is entry-by-entry patching. |
| SubdocInjector.RebuildBuffers | tools/ms-office/subdoc-injector/subdoc_injector.py:114-131 | Rebuilding an archive without repeated names and with only buffers pending patches each entry in place. |
| SubdocInjector.PatchAbsent | tools/ms-office/subdoc-injector/subdoc_injector.py:122-131 | An entry whose name is not pending is copied unchanged. |
| SubdocInjector.UpdateableZipFile.constructor | tools/ms-office/subdoc-injector/subdoc_injector.py:46-52 | A new archive has no pending replacement and does not allow updates. |
| SubdocInjector.UpdateableZipFile.WriteStr | tools/ms-office/subdoc-injector/subdoc_injector.py:54-67 | While updates are allowed, writing an existing name leaves the archive alone and appends the contents to that name's buffer. Writing it after the name was marked for deletion raises AttributeError. Otherwise the entry is appended to the archive. |
| SubdocInjector.UpdateableZipFile.RemoveFile | tools/ms-office/subdoc-injector/subdoc_injector.py:104-105 | Removing a path sets the delete marker for it, replacing any pending buffer, and changes nothing else. |
| SubdocInjector.UpdateableZipFile.Enter | tools/ms-office/subdoc-injector/subdoc_injector.py:82-85 | Entering the with-block allows updates and changes nothing else. |
| SubdocInjector.UpdateableZipFile.RebuildZip | tools/ms-office/subdoc-injector/subdoc_injector.py:107-135 | The new archive and the remaining `_replace` are those of the rebuild loop over the original entries. |
| SubdocInjector.UpdateableZipFile.Exit | tools/ms-office/subdoc-injector/subdoc_injector.py:87-97 | Leaving the with-block rebuilds exactly when something is pending, and updates end disallowed. |
| SubdocInjector.Inject | tools/ms-office/subdoc-injector/subdoc_injector.py:184-186 | Without repeated names, the settings part and the relationships part each replace their entry in place, or are appended when absent, settings first. |
| SubdocInjector.EditPos | tools/ms-office/subdoc-injector/subdoc_injector.py:181 | The spliced element is its template filled with the identifier. |
| SubdocInjector.InjectSettings | tools/ms-office/subdoc-injector/subdoc_injector.py:179-183 | A first injection: InjectSettingsSplice proves ValueError exactly when there is no `/>`, and that removing the element restores the text with the first `/>` where it was. |
| SubdocInjector.InjectSettingsSplice | tools/ms-office/subdoc-injector/subdoc_injector.py:179-183 | The splice fails exactly when there is no `/>`. Otherwise removing the element gives back the original text, and the first `/>` is still where it was. |
| SubdocInjector.OldId | tools/ms-office/subdoc-injector/subdoc_injector.py:172 | The value of the first `r:id` attribute: QuotedValue and OldIdOfInjected prove it is the quoted value after `r:id=`, which for an injected document is `rId` and the identifier. |
| SubdocInjector.Reinfect | tools/ms-office/subdoc-injector/subdoc_injector.py:172-174 | The id swap of a reinfection: ReinfectSwap proves IndexError exactly when no old id is found, and otherwise the split on the old id rejoined with the new one. |
| SubdocInjector.QuotedValue | tools/ms-office/subdoc-injector/subdoc_injector.py:172 | Splitting on quotes gives the quoted value as the second piece. |
| SubdocInjector.ReinfectSwap | tools/ms-office/subdoc-injector/subdoc_injector.py:172-174 | A reinfection stops with IndexError exactly when no old id is found. Otherwise the text is cut at every occurrence of the old id and rejoined with `rId` and the new identifier. |
| SubdocInjector.OldIdOfInjected | tools/ms-office/subdoc-injector/subdoc_injector.py:172-181 | After a first injection, a reinfection finds the id `rId<identifier>` the injection wrote. This holds when nothing before the first `/>` holds `r:id=` and the identifier has no quote or `=`. |
| SubdocInjector.Rels | tools/ms-office/subdoc-injector/subdoc_injector.py:28-33 | The relationships part is `SETRELS` formatted with the identifier and the url. |
| SubdocInjector.RelsFields | tools/ms-office/subdoc-injector/subdoc_injector.py:28-33 | The identifier follows `Id="rId` and the url is the quoted `Target`. |
| SubdocInjector.NewSettings | tools/ms-office/subdoc-injector/subdoc_injector.py:168-183 | The new settings text, by the `reinfect` flag: InfectDoc proves its error stops the injection and its text is what is written back. |
| SubdocInjector.InfectDoc | tools/ms-office/subdoc-injector/subdoc_injector.py:164-186 | A missing settings part raises KeyError, and a failed splice or id lookup stops with its error. Otherwise, without repeated names, the settings are replaced in place and the relationships part is replaced or appended. |
| CflareUpdate.TokenLines | tools/cfire/lib/cron/cflareupdate.py:117-119 | One token line per record. |
| CflareUpdate.TokenLinesAt | tools/cfire/lib/cron/cflareupdate.py:117-119 | The records are split into tokens one for one, in order: line k is the whitespace split of record k. |
| CflareUpdate.DownloadFilename | tools/cfire/lib/cron/cflareupdate.py:65 | The file name is the directory, a slash, and the URL's text after its last slash. |
| CflareUpdate.Repeat | tools/cfire/lib/cron/cflareupdate.py:90 | `c * n` is n copies of c, and none when n is not positive. |
| CflareUpdate.BarShape | tools/cfire/lib/cron/cflareupdate.py:84-91 | While no more than the announced length has arrived, the bar is 50 wide: `done` `=` signs, then spaces. It is full once everything has arrived. |
| CflareUpdate.DoneBound | tools/cfire/lib/cron/cflareupdate.py:89 | `done` is at most 50, and exactly 50 at the end. |
| CflareUpdate.FramesAt | tools/cfire/lib/cron/cflareupdate.py:86-91 | The bar after each chunk shows the share received up to and including it. |
| CflareUpdate.DownloadCFdb | tools/cfire/lib/cron/cflareupdate.py:65-92 | A status other than 200 stops the download. An unannounced length writes the body and no bars. An announced zero length raises ZeroDivisionError once a chunk arrives, and a positive length writes every chunk with one bar after each. |
| CflareUpdate.IndexOf | tools/cfire/lib/cron/cflareupdate.py:124 | `list.remove` takes out the first occurrence. |
| CflareUpdate.RemoveFirst | tools/cfire/lib/cron/cflareupdate.py:124 | Removing keeps every other element: the multiset loses one copy. |
| CflareUpdate.NsLong | tools/cfire/lib/cron/cflareupdate.py:121-126 | A long nsout record's domain is its last token. |
| CflareUpdate.NsValue | tools/cfire/lib/cron/cflareupdate.py:128 | The stored value is `'{} {}'` formatted with the two nameservers. |
| CflareUpdate.NsPrefixStep | tools/cfire/lib/cron/cflareupdate.py:117-128 | Each record updates the loop variables, then stores their value under their domain. |
| CflareUpdate.NsBound | tools/cfire/lib/cron/cflareupdate.py:118-127 | Once bound, the loop variables stay bound. |
| CflareUpdate.NsUnbound | tools/cfire/lib/cron/cflareupdate.py:118-127 | The variables are unbound exactly when the first record is short. |
| CflareUpdate.NsFold | tools/cfire/lib/cron/cflareupdate.py:115-128 | `_nsdict` after the records: NsFoldHolds proves the last binding's value is stored under its domain, NsThreeTokens that a three-token record stores its two nameservers, and NsShortKeeps that a short record after a bound one leaves the table alone. |
| CflareUpdate.NsFoldHolds | tools/cfire/lib/cron/cflareupdate.py:128 | The table holds the last binding's value under its domain. |
| CflareUpdate.NsThreeTokens | tools/cfire/lib/cron/cflareupdate.py:119-128 | A 3-token record stores `NS1 NS2` under its domain, overwriting any earlier entry. |
| CflareUpdate.NsShortKeeps | tools/cfire/lib/cron/cflareupdate.py:120-128 | A short record after a bound one stores the previous value again, so the table does not change. |
| CflareUpdate.NsLongRejoins | tools/cfire/lib/cron/cflareupdate.py:121-128 | When the domain occurs only last, the stored value, a space and the domain rejoin the record. |
| CflareUpdate.NsLongRepeatedDomain | tools/cfire/lib/cron/cflareupdate.py:123-126 | When the domain also occurs earlier, the earlier copy is removed and the last stays in the second nameserver. |
| CflareUpdate.CountryNameOfThree | tools/cfire/lib/cron/cflareupdate.py:142-144 | A 3-token record's country is its third token. |
| CflareUpdate.CountryPrefixStep | tools/cfire/lib/cron/cflareupdate.py:140-145 | Each record updates the domain variable, then stores its country under it. |
| CflareUpdate.CountryFold | tools/cfire/lib/cron/cflareupdate.py:138-145 | `_countrydict` after the records, under either rule: CountryStale proves a record that does not bind the domain files under the previous one, and CountryOwnDomain that under the intended rule each record files under its own domain. |
| CflareUpdate.CountryStale | tools/cfire/lib/cron/cflareupdate.py:141-145 | A record that does not bind the domain stores its country under an earlier record's domain. |
| CflareUpdate.CountryMisfiled | tools/cfire/lib/cron/cflareupdate.py:141-145 | As written, a multi-word country keeps the previous domain. It overwrites that domain's country, and its own domain gets no entry. |
| CflareUpdate.CountryOwnDomain | tools/cfire/lib/cron/cflareupdate.py:141-145 | As intended, each record of three or more tokens files its country under its own domain. |
| CflareUpdate.CountryFiled | tools/cfire/lib/cron/cflareupdate.py:141-145 | As intended, the two example records each file their country under their own domain. |
| CflareUpdate.CountryBound | tools/cfire/lib/cron/cflareupdate.py:141-145 | Under either rule, once the first record binds the domain it stays bound after every later record. |
| CflareUpdate.CountryUnbound | tools/cfire/lib/cron/cflareupdate.py:141-145 | Under either rule, the domain is unbound after the first record exactly when that record does not bind it. |
| CflareUpdate.LookupOrNA | tools/cfire/lib/cron/cflareupdate.py:150-163 | A lookup gives the stored value, or `'N/A'` for an absent key. |
| CflareUpdate.NsLookupAfterRecord | tools/cfire/lib/cron/cflareupdate.py:119-155 | After a 3-token nsout record, looking up its domain gives its two nameservers. |
| CflareUpdate.RowOptions | tools/cfire/lib/cron/cflareupdate.py:194-199 | There is one candidate row per record. |
| CflareUpdate.RowsIff | tools/cfire/lib/cron/cflareupdate.py:194-199 | All rows are there exactly when every record has at least three tokens, one row per record, in order. |
| CflareUpdate.IpoutRow | tools/cfire/lib/cron/cflareupdate.py:195-199 | The row of one ipout record: RowFields proves its domain, IP and creation date are tokens 1, 2 and 0 without colons, and its nameservers and country the two lookups. |
| CflareUpdate.RowFields | tools/cfire/lib/cron/cflareupdate.py:195-199 | A row is the second token, the third, the first without surrounding colons, and the two lookups of that domain. |
| CflareUpdate.CrimeFlareDb.constructor | tools/cfire/lib/cron/cflareupdate.py:52-53 | Both global tables start empty. |
| CflareUpdate.CrimeFlareDb.ParseNsout | tools/cfire/lib/cron/cflareupdate.py:110-128 | The first record fails exactly when it is short. Otherwise the table is the fold of the records, and the country table is untouched. |
| CflareUpdate.CrimeFlareDb.ParseCountry | tools/cfire/lib/cron/cflareupdate.py:133-145 | The parser under either rule for the domain: `AsWritten` is the code as written, `Intended` the corrected one. UnboundLocalError exactly when the first record does not bind the domain under the rule, and then the table is unchanged. Otherwise the table is the fold of the records under the rule. The nameserver table is untouched. |
| CflareUpdate.BindCountry | tools/cfire/lib/cron/cflareupdate.py:141-144 | One record binds the domain exactly when it has three tokens, or more under the intended rule, or the domain was already bound; the country is the third token or the join of the tokens from the third on. |
| CflareUpdate.CrimeFlareDb.ParseIpout | tools/cfire/lib/cron/cflareupdate.py:166-204 | `parseipout` over the module's two tables gives one row per record, in order, or IndexError. |
| CflareUpdate.IpoutRows | tools/cfire/lib/cron/cflareupdate.py:189-199 | The loop yields one row per record, in order, or IndexError when any record has fewer than three tokens. |
| CflareUpdate.BindNsVars | tools/cfire/lib/cron/cflareupdate.py:118-126 | One record binds the loop variables exactly when it has three or more tokens, and otherwise keeps the previous binding. |
| CflareUpdate.UpdatePlan | tools/cfire/lib/cron/cflareupdate.py:208-253 | `updateCFdb` as the actions it takes: PlanOrder and MissingFirst prove missing archives are fetched first, then the comparison runs, or the update stops when the host cannot be reached. |
| CflareUpdate.PlanOrder | tools/cfire/lib/cron/cflareupdate.py:208-253 | The missing archives are fetched first. The size comparison follows, or a stop when the host is unreachable. |
| CflareUpdate.Freshen | tools/cfire/lib/cron/cflareupdate.py:238-253 | The comparison step: FreshenFetches proves an archive is fetched again exactly when its length differs, and CreateOnCountryAlone that the up-to-date and create actions depend on the country archive alone. |
| CflareUpdate.FreshenFetches | tools/cfire/lib/cron/cflareupdate.py:238-247 | With all three replies at 200, an archive is fetched again exactly when its length differs from its size. |
| CflareUpdate.CreateOnCountryAlone | tools/cfire/lib/cron/cflareupdate.py:238-253 | "Up to date", and the creation of a missing database, depend only on the country comparison. The ipout and nsout comparisons play no part. |
| CflareUpdate.MissingFirst | tools/cfire/lib/cron/cflareupdate.py:211-221 | Unreadable archives are fetched first, in the order ipout, nsout, country. |
| Cfire.AppendNew | tools/cfire/cfire.py:231-234 | Appending a value only when absent keeps the list duplicate-free, adds exactly that value, and keeps the existing entries in place. |
| Cfire.AddAll | tools/cfire/cfire.py:231-234 | Collecting a sequence keeps the list duplicate-free, holds exactly the old and new values, and keeps the old entries in place. |
| Cfire.ListUniq | tools/cfire/cfire.py:96-98 | `list_uniq` is duplicate-free and has the same elements as its input. |
| Cfire.AddAllFirstSeenOrder | tools/cfire/cfire.py:231-234 | Collected values stand in the order of their first occurrence. |
| Cfire.SplitHead | tools/cfire/cfire.py:108 | `s.split(c)[0]` is the text before the first `c`. |
| Cfire.Host | tools/cfire/cfire.py:106-119 | With an empty netloc, the host is: the path before its first `:` if it has one; else the scheme if non-empty; else the path before its first `/`. Otherwise it is the netloc before its first `:`. |
| Cfire.CleanUri | tools/cfire/cfire.py:101-120 | The hosts are duplicate-free and exactly the targets' hosts. |
| Cfire.HostDropsPort | tools/cfire/cfire.py:109-111 | A bare `host:port/path` target gives the host alone. |
| Cfire.InCidr | tools/cfire/cfire.py:127 | netaddr's `address in network`: InCidrIffInBlock proves it is the same family and an address in the block's interval. |
| Cfire.InCidrIffInBlock | tools/cfire/cfire.py:127 | Prefix-bit membership agrees with membership in the block's address interval. |
| Cfire.CheckCfRanges | tools/cfire/cfire.py:123-129 | The scan returns true exactly when the address lies in some Cloudflare range. |
| Cfire.HostedByFamily | tools/cfire/lib/cloudflare/ranges.py:11-31 | An IPv4 address is checked only against the 14 IPv4 ranges, and an IPv6 address only against the 7 IPv6 ones. |
| Cfire.CloudflareAddressHosted | tools/cfire/lib/cloudflare/ranges.py:14 | 104.16.0.1 lies in 104.16.0.0/12. |
| Cfire.ChooseQuery | tools/cfire/cfire.py:145-157 | The query searches by the first truthy argument in the order domain, ip, created, nameservers. There is none exactly when no argument is truthy. The nameserver query excludes the domain as formatted. |
| Cfire.QueryText | tools/cfire/cfire.py:147-157 | The SQL text is each template formatted with its values. |
| Cfire.Matches | tools/cfire/cfire.py:147-157 | The rows each `WHERE` clause selects: SelectMembers, SelectCount and QueryCrimeflare prove the query returns exactly those rows. |
| Cfire.Select | tools/cfire/cfire.py:167-168 | No more rows are selected than the table has. |
| Cfire.SelectMembers | tools/cfire/cfire.py:167-168 | Exactly the table's rows that match the query are selected. |
| Cfire.SelectCount | tools/cfire/cfire.py:167-168 | Each matching row is selected as many times as the table holds it, and a row that does not match never is, so the selection has as many rows as the table has matches. |
| Cfire.SelectAppend | tools/cfire/cfire.py:167-168 | Selecting from two stretches of the table gives the first stretch's matches, then the second's: the rows keep table order. |
| Cfire.QueryCrimeflare | tools/cfire/cfire.py:142-186 | With no truthy argument the query raises SystemExit. Otherwise it returns the matching rows when there are any, and False when none match. |
| Cfire.QueryRecordsCount | tools/cfire/cfire.py:142-186 | The rows returned hold each matching table row as often as the table does, which fixes the count printed as "Found N records". |
| Cfire.IpsOf | tools/cfire/cfire.py:228-229 | Each result row contributes its IP, in order. |
| Cfire.RecordReports | tools/cfire/cfire.py:228-230 | Each result row is reported once, in order. |
| Cfire.OtherReports | tools/cfire/cfire.py:245-248 | A reverse lookup reports exactly the rows of other domains than the target, and no more reports than rows. |
| Cfire.OtherReportsCount | tools/cfire/cfire.py:245-248 | Each row of another domain is reported as often as the result holds it, and a row of the target never. |
| Cfire.OtherReportsAppend | tools/cfire/cfire.py:245-248 | The reports of two stretches of rows are the first stretch's, then the second's: they keep the rows' order. |
| Cfire.ReverseLookup | tools/cfire/cfire.py:239-250 | The reverse lookups over the found IPs: ReverseLookupExits, ReverseLookupStops and ReverseLookupReports prove it exits exactly at an empty IP, adds nothing after, and reports only other domains' rows or the all-clear. |
| Cfire.ReverseLookupExits | tools/cfire/cfire.py:241-250 | The reverse lookups exit exactly at an empty IP. |
| Cfire.ReverseLookupStops | tools/cfire/cfire.py:241-250 | After an exit, later IPs add nothing. |
| Cfire.ReverseLookupReports | tools/cfire/cfire.py:241-250 | Every report is another domain's row on a searched IP, or the all-clear. |
| Cfire.ReverseLookupFindsRows | tools/cfire/cfire.py:244-250 | An IP some row holds never gets the "no other domains" line. |
| Cfire.CrimeflareLookup | tools/cfire/cfire.py:211-250 | One call of `crimeflare_db_lookup`: LookupFoundIps, LookupKeepsFoundIps, LookupReports and LookupExits prove its `_foundips`, its reports and when it exits. |
| Cfire.LookupFoundIps | tools/cfire/cfire.py:211-234 | `_foundips` afterwards holds exactly its old IPs, the resolved IP when it lies outside Cloudflare, and the IPs of the target's rows. |
| Cfire.LookupKeepsFoundIps | tools/cfire/cfire.py:221-234 | `_foundips` never gains a duplicate, and it keeps its old entries in place. |
| Cfire.LookupResolvedIp | tools/cfire/cfire.py:217-222 | A resolved IP outside the ranges joins `_foundips`. One inside the ranges joins only if it was there already or a target row holds it. |
| Cfire.FoundIpsOrder | tools/cfire/cfire.py:231-232 | `_found` is duplicate-free, in first-seen order. |
| Cfire.LookupReportsShape | tools/cfire/cfire.py:223-250 | The reports are the resolution, then the records or "no records", then the reverse lookups. |
| Cfire.FoundIpsInTable | tools/cfire/cfire.py:231-243 | Every IP searched in reverse is held by some row of the table. |
| Cfire.FoundReportsProperties | tools/cfire/cfire.py:239-250 | A row of the target itself is never reported as another domain, and "no other domains" is never printed. |
| Cfire.LookupReports | tools/cfire/cfire.py:211-250 | The first report is the resolution. The target's own rows are never reported as other domains, and "no other domains" is never printed. |
| Cfire.LookupExits | tools/cfire/cfire.py:211-250 | A lookup exits exactly when the target is empty or one of its rows has an empty IP. |
| Cfire.ReverseStepLoop | tools/cfire/cfire.py:243-250 | The inner loop over one IP's rows produces that IP's reverse-lookup reports. |
| Cfire.ReverseLookupLoop | tools/cfire/cfire.py:241-250 | The loop over `_found` produces the reverse lookups' reports, and stops at the first exit. |
| Cfire.Finder.constructor | tools/cfire/cfire.py:94 | `_foundips` starts empty. |
| Cfire.Finder.Resolve | tools/cfire/cfire.py:213-222 | Resolution reports where the address lies and keeps it when it lies outside Cloudflare. |
| Cfire.Finder.RecordRows | tools/cfire/cfire.py:228-234 | Each row is reported, and its IP is collected into `_found` and `_foundips`. |
| Cfire.Finder.CrimeflareDbLookup | tools/cfire/cfire.py:211-250 | The method's reports, exit and `_foundips` are those of the lookup function, whose properties are the lemmas above. |
| Cfire.Finder.Found | tools/cfire/cfire.py:225-250 | After the query by domain returned rows, the reports, exit and `_foundips` are those of the lookup function's records case. |

## Left out

- Sockets, threads and time. This covers `TCPServer`, `serve_forever` threads, the 10-second socket timeout and the keep-alive sleep loop of the XXE listener, and the worker threads and queue draining of the bucket enumerator.
  - The FTP handler is fed the chunks it reads and the exception that ends its loop, as inputs.
  - `recv` is taken to deliver whole chunks.
- Logging to files and the console, except in two places. The XXE listener's `wlog` lines become its event trace. The origin finder's `printlog` and `print` lines in `crimeflare_db_lookup` become its report sequences. The log file writes of `printlog` and the colour codes in messages are not modelled.
  - The bucket enumerator's `print` and `logging` calls are dropped, including the progress and result lines of `bucket_worker` and the grep's output.
  - The subdocument injector's `print` lines are dropped.
  - The archive updater's `print` lines are dropped: the download messages, the progress bar as printed, and the status lines of `updateCFdb`. The progress bar is modelled as the strings it would print, and `updateCFdb`'s up-to-date and missing-archive cases are actions of its plan.
- The float progress percentage of `bucket_worker`.
- `bucket_worker` itself: the model starts from each probe's outcome, either the CLI output or a failed call.
- The AWS calls. The boto3 session, the profile prompt and `tag_resource` are replaced by the call's outcome. The `aws s3 ls` subprocess is replaced by its output.
- `S3_REGIONS`, which lives in `settings.py`. `settings.py` is not part of this model, so the valid regions are a parameter.
- `sublist3r` subdomain discovery. The subdomains are an input.
- `analyzedoc`, `main` and all option parsing, in every script. `analyzedoc` only feeds print branches through the `xmltodict` library.
- The ZIP format, temporary files, `mkdtemp`, `shutil.move` and `shutil.copy`. The archive is its ordered list of entries, and `write` of a file from disk is not modelled.
- `_close_all_temp_files`. Closing buffers has no effect on the entries.
- `requests` downloads and HEAD calls, `os.stat`, `os.access`, `os.makedirs` and `os.remove`.
  - Reply statuses, lengths, file sizes and readability are inputs.
  - The chunks a download delivers are an input, so the effect of `chunk_size` is not modelled.
  - The KeyboardInterrupt branch is not modelled.
- CflareUpdate.Done: models `int(50 * dl / total_length)` with integer floor division. The Python 3 float division, and its rounding for very large sizes, are not modelled.
- SQLite in both tools: table creation, PRAGMAs, inserts and connection errors.
  - An updater archive is given as its records.
  - The finder's `cfdb` table is given as its rows, in table order.
- Cfire.Matches: a row matches when its column equals the searched value. The SQL quoting of values that contain a quote character is not modelled.
- DNS resolution and `urlparse`. The resolver's answer and each target's scheme, netloc and path are inputs.
- `netaddr`. An address is its family and integer value; parsing address text is not modelled.
- The well-formedness of the `CF_RANGES` transcription. The claim that each network has no host bits set is not proved: evaluating the 128-bit IPv6 powers is beyond what the verifier completes here.
- `sublister_engine_query`, `ssdeepcompare` and `main` of the origin finder. These use the network, `ssdeep` and Python 2 syntax.
- Cfire.ListUniq: Python's `list(set(seq))` leaves the order to the set. The model keeps first-seen order, so only duplicate-freedom and the element set are promised, as in the source.
- The output file of `printlog`.
- KeywordsIff: lower-cases the keywords, and BucketHead.KeywordOf lower-cases each keyword line, with `Lower`, which changes only the ASCII letters. Python 3's `str.lower` changes every cased letter and can change the length (`İ` becomes two code points), so keywords are assumed ASCII. With a keyword line `PASSWÖRD` the source gives `passwörd` and the model `passwÖrd`. The same holds for the lower-cased listing of BucketHead.Flagged.
- XxeServer.FtpHandler.Handle: the exception that ends the FTP loop is placed only between two whole turns. In the source a `sendall` can raise after the Received line is logged or between the three LIST replies, which leaves part of a turn before the error line. XxeServer.Session cannot express that partial turn.
- HoneyCheck.Check: covers the `tag_resource` outcome only. The `sys.exit(1)` after a missing profile, which would itself raise NameError since `sys` is not imported, is outside the model.

## Findings

| source | as written | input that shows it | evidently intended | confidence | as-written member | corrected member |
|---|---|---|---|---|---|---|
| tools/python/xxe-server.py:113 | `argv[1]` is read, but `argv` is never imported | any command line, e.g. `xxe-server.py 203.0.113.5` | read `sys.argv`: start when a non-empty address is given | not executed | XxeServer.StartupAsWrittenNeverStarts | XxeServer.Startup |
| tools/aws-pentest-tools/s3/buckethead.py:252-254 | under Python 3 the listing is `bytes`, and `x in output` with a `str` keyword raises TypeError | keyword file holding `password`, and a listable bucket whose listing holds `Password.txt` | flag the bucket when a keyword occurs in the lower-cased listing text | not executed | BucketHead.GrepAsWrittenNeverFlags | BucketHead.Grep |
| tools/cfire/lib/cron/cflareupdate.py:141-145 | a record without exactly three tokens keeps the previous record's `DOMAIN`, and a multi-word first record raises UnboundLocalError (ParseCountry under the `AsWritten` rule) | records `a.com 1.1.1.1 France` then `b.com 2.2.2.2 United States` give `{a.com: United States}` | file each multi-word country under its own record's domain | not executed | CflareUpdate.CountryMisfiled | CflareUpdate.CountryFiled |
