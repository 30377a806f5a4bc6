# alma-rc harvester core, modelled in Dafny

This project models three pieces of sequential logic from the alma-rc metadata harvester of the
Universidad de Pinar del Rio and proves properties about them. HTTP, HTML/XML parsing and the
filesystem become plain inputs.

- **DSpace full-text resolver** (`legacy/dspace.py`, module `DSpace`).
  `get_urls_download_dspace` turns the `href`s of a landing page's anchors into a dictionary
  `download0 … download{n-1}` of bitstream URLs. `GetUrlsDownload` is that loop. The functions
  `Accepted`, `MatchPattern` and `SiteRoot` state what it computes. `get_article_download_dspace`
  picks a file name from `Content-Disposition` or from the URL and writes the body into a
  folder. `SaveEntry` models one pass of that loop and `GetArticleDownload` the whole function.
  The folder is a `Folder` object whose file map the writes update.
- **Per-record failure accounting** (`new_harvester/harvester.py`, module `NewHarvester`).
  `HarvestAllMetadata` runs the record/format loop of `harvest_all_metadata`. An oracle
  `outcome(identifier, format)` stands in for the OAI-PMH 2.0 `GetRecord` call and the write of
  its result. The statistics are `Summary(totalDocs, failedDocs, partialFailures, pausedAfter)`.
  The pauses of `time.sleep` are recorded as the record counts after which they happen. The
  left fold `Run` specifies the loop.
- **Metadata helpers of the legacy harvester** (`legacy/harvester.py`, modules `LegacyMetadata`
  and `ZipHelper`):
  - element selection by `xml:lang` (`GetSingleElement`, `GetMultipleElements`);
  - grouping of element texts by tag (`XmlToDict`, specified by `Group`);
  - pruning of `None` values (`RemoveNoneFromDict` on a `PyDict` object, specified by
    `PruneEntries`);
  - the archive entry list of `ZipHelper.compress_dir` (`GetZipItems` appends to an `ItemList`
    object; `CompressDir`; specified by `ZipItems` and `Paths`).

`PyStrings` holds the Python `str` operations these rely on: `in`, `index`, `rfind`, slicing,
`replace` and `str(n)`. `Wrappers` holds `Option` and `Result`. A raised exception is an `Err`
value or an error outcome.

Two behaviours of the code differ from what a reader of its comments and names would expect.
The model follows the code:

- The anchors `[/bitstream/X/1, /bitstream/X/1, /other/2, /bitstream/X/1]` give one URL, not
  two. The code compares each candidate with the URL accepted last (`url_download`,
  legacy/dspace.py:52-55), and a rejected anchor does not reset it
  (`RepeatAfterRejectedDropped`).
- The archive names of `compress_dir` are not nested under the source directory's basename.
  The code starts `_get_zip_items` with the item path `''` (legacy/harvester.py:203). So the
  archive names are relative to the directory itself and exclude its basename
  (`ArchiveLayout`).

## Model

| member | source | states |
|---|---|---|
| PyStrings.ContainsOccurs | legacy/dspace.py:52 | `t in s` holds exactly when `t` occurs in `s` at some position |
| PyStrings.IndexOf | legacy/dspace.py:79 | `s.index(c)` is the first position holding `c`; it is `None` (Python raises `ValueError`) exactly when `c` does not occur |
| PyStrings.RFind | legacy/dspace.py:80 | `s.rfind(c)` is the last position holding `c`, and -1 exactly when `c` does not occur |
| PyStrings.Slice | legacy/dspace.py:81 | the slice `s[lo:hi]` is the text between the indices, and empty when `hi <= lo` |
| PyStrings.ReplaceAbsent | legacy/dspace.py:43 | `replace` leaves text without the pattern unchanged |
| PyStrings.ReplaceGrows | legacy/dspace.py:43 | with a longer replacement the text never shrinks, and it grows when the pattern occurs |
| PyStrings.ReplaceUnchangedIff | legacy/dspace.py:43 | with a longer replacement, `replace` is the identity exactly when the pattern is absent |
| PyStrings.Decimal | legacy/dspace.py:57 | `str(n)` is a non-empty string of decimal digits with no leading zero |
| PyStrings.DecimalRoundTrip | legacy/dspace.py:57 | `str(n)` read back as a number gives `n` |
| PyStrings.DecimalInjective | legacy/dspace.py:57 | different numbers have different `str` spellings |
| DSpace.MatchPattern | legacy/dspace.py:43 | `url_mod`, the landing URL with `handle` replaced by `bitstream`; `MatchPatternUnchangedIff` and the `replace` lemmas above state what it gives |
| DSpace.Accepted | legacy/dspace.py:46-58 | the URLs the anchor loop accepts, in order; `AcceptedShape` and `AcceptedSources` state its contract |
| DSpace.MatchPatternUnchangedIff | legacy/dspace.py:43 | `url_mod` equals the landing URL exactly when the URL holds no `handle` |
| DSpace.AcceptedShape | legacy/dspace.py:46-58 | there are at most as many accepted URLs as anchors; each starts with `scheme://netloc` and contains `url_mod`; no two consecutive accepted URLs are equal |
| DSpace.AcceptedSources | legacy/dspace.py:46-58 | accepted URL `k` is the site root plus the non-empty `href` of a passing anchor, and the anchors keep their order; every passing anchor that was not accepted repeats the URL accepted last before it |
| DSpace.RepeatAfterRejectedDropped | legacy/dspace.py:52-55 | a repeat of the URL accepted last is dropped even when only a rejected anchor lies in between: `a, a, b, a` gives one URL |
| DSpace.RepeatAfterOtherKept | legacy/dspace.py:52-55 | a URL is accepted again after a different URL was accepted in between: `a, b, a` gives three URLs |
| DSpace.DownloadKey | legacy/dspace.py:57 | the key `'download'+str(cont)`; `DownloadKeysDistinct` states that different positions give different keys |
| DSpace.DownloadKeysDistinct | legacy/dspace.py:57-58 | the keys `download<k>` of different positions differ, so no entry overwrites another |
| DSpace.GetUrlsDownload | legacy/dspace.py:23-59 | the dictionary holds exactly the accepted URLs in acceptance order, the `k`-th under `download<k>` |
| DSpace.DispositionFilename | legacy/dspace.py:77-81 | the name is the text strictly between the first and the last `"` of `Content-Disposition`; there is no name (the code raises at `index`) exactly when the header has no `"` |
| DSpace.DispositionQuotedName | legacy/dspace.py:79-81 | a quoted name with no `"` around it is returned as it stands |
| DSpace.DispositionSingleQuote | legacy/dspace.py:79-81 | a header with a single `"` gives the empty name |
| DSpace.UrlFilename | legacy/dspace.py:85-89 | the name taken from the URL when there is no `Content-Disposition`; `UrlFilenameByRFind`, `UrlFilenameShape` and `UrlFilenameLastSegment` state its contract |
| DSpace.UrlFilenameByRFind | legacy/dspace.py:85-89 | slicing the quoted URL between its last `/` and its last `'` gives the URL text after the URL's own last `/`, or the URL behind the added `'` when it has none |
| DSpace.UrlFilenameShape | legacy/dspace.py:85-89 | without the header the name is a suffix of the URL right behind a `/` and holding none, with no percent-decoding; a URL without `/` keeps the added leading `'` |
| DSpace.UrlFilenameLastSegment | legacy/dspace.py:85-89 | `base/name` gives `name` |
| DSpace.Filename | legacy/dspace.py:77-89 | when `Content-Disposition` is present the save fails exactly when it has no `"`, and otherwise the name is the one `DispositionFilename` takes from it; without it the name is `UrlFilename` of the URL |
| DSpace.PassOf | legacy/dspace.py:71-93 | a failed request raises; a pass skips (no write, no exception) exactly when the request went through and the body is empty; otherwise `Filename` decides: its error is raised, a directory name raises `IsADirectory`, and any other name gets the response body |
| DSpace.SaveEffect | legacy/dspace.py:71-93 | the files and the exception after one pass; `SaveEffectWrites`, `EmptyBodyWritesNothing`, `SavedUnderLastSegment`, `SavedUnderDispositionName` and `NoQuoteRaises` state its contract |
| DSpace.SavedUnderDispositionName | legacy/dspace.py:77-92 | a non-empty body with a `Content-Disposition` holding a `"` is stored under the text between its first and last `"`, when that is not a directory name, and nothing is raised |
| DSpace.NoQuoteRaises | legacy/dspace.py:77-79 | a non-empty body with a `Content-Disposition` holding no `"` raises at `index` and writes nothing |
| DSpace.Folder.Write | legacy/dspace.py:91-93 | writing replaces or creates the named file, and fails, changing nothing, when the name designates a directory (the save directory or its parent) |
| DSpace.EmptyBodyWritesNothing | legacy/dspace.py:76 | a response with an empty body writes no file and raises nothing |
| DSpace.SavedUnderLastSegment | legacy/dspace.py:76-93 | a non-empty body without `Content-Disposition` is stored under the URL's last segment |
| DSpace.SaveEntry | legacy/dspace.py:71-93 | one pass of the loop changes the folder and raises exactly as `SaveEffect` says |
| DSpace.GetArticleDownload | legacy/dspace.py:61-95 | an empty dictionary returns `'ok'` with the files unchanged; any other dictionary has its first entry saved and then fails, with `UnboundLocalError` at the latest |
| DSpace.SaveEffectWrites | legacy/dspace.py:76-93 | a pass writes exactly the file `WrittenName` names, with the response body, or nothing |
| DSpace.SaveAllStoresEach | legacy/dspace.py:70-93 | in the corrected loop, when nothing raises, each entry that wrote a file not overwritten later has its body stored under its name |
| DSpace.SaveAllStopsAtError | legacy/dspace.py:70-93 | in the corrected loop, the first entry that raises ends the loop with the files written so far |
| DSpace.FirstPassAgrees | legacy/dspace.py:70-94 | on the first entry the corrected loop does what the written one does before `cont` is read |
| DSpace.GetArticleDownloadIntended | legacy/dspace.py:61-95 | the corrected function saves every entry in order and returns `'ok'` unless one raises, in which case the folder holds what was written before it |
| NewHarvester.DocId | new_harvester/harvester.py:35 | `doc_id` is the identifier's suffix after its last `:`, or the whole identifier when it has no `:` |
| NewHarvester.DocIdOfSuffix | new_harvester/harvester.py:35 | `oai:host:id` gives `id` |
| NewHarvester.FailedFormats | new_harvester/harvester.py:41-51 | the `failed_formats` list of one record; `FailedFormatsExact`, `FailedFormatsInOrder`, `AllFailedIff` and `NoneFailedIff` state its contract |
| NewHarvester.FailedFormatsExact | new_harvester/harvester.py:41-51 | `failed_formats` is no longer than the formats list, and a format is in it exactly when the oracle says its retrieval failed |
| NewHarvester.FailedFormatsInOrder | new_harvester/harvester.py:41-51 | `failed_formats` is the subsequence of the formats list at the failing positions: each entry is the format at an increasing position, with repeats kept, and every failing position is among them |
| NewHarvester.AllFailedIff | new_harvester/harvester.py:58 | `len(failed_formats) == len(formats)` holds exactly when every format failed |
| NewHarvester.NoneFailedIff | new_harvester/harvester.py:41-51 | no format failed exactly when every format succeeded |
| NewHarvester.ClassifyRecord | new_harvester/harvester.py:58-61 | a record is fully failed exactly when every format failed, partially failed exactly when some but not all did, and a success otherwise |
| NewHarvester.SuccessChangesNothing | new_harvester/harvester.py:58-61 | a record with no failed format and a non-empty format list changes neither `failed_docs` nor `partial_failures` |
| NewHarvester.Step | new_harvester/harvester.py:35-61 | the statistics after one more record; `StepCounts`, `StepFailedDocs` and `StepPartialFailures` tie it to the record's `RecordClass`, and `ClassifyRecord` and `SuccessChangesNothing` state what each class means |
| NewHarvester.Run | new_harvester/harvester.py:34-61 | the statistics after a list of records; `RunCounts`, `ReportedCountsBounded`, `FailedDocsExact`, `PartialKeysExact` and `PartialEntryIsLast` state its contract |
| NewHarvester.RunCounts | new_harvester/harvester.py:34-55 | `total_docs` is the number of records; the loop pauses after records 10, 20, …, that is `total_docs // 10` times |
| NewHarvester.ReportedCountsBounded | new_harvester/harvester.py:58-61 | `failed_docs` and `partial_failures` each hold at most one id per record |
| NewHarvester.FailedDocsExact | new_harvester/harvester.py:58-59 | an id is in `failed_docs` exactly when some record with that `doc_id` had every format fail |
| NewHarvester.PartialKeysExact | new_harvester/harvester.py:60-61 | an id is a key of `partial_failures` exactly when some record with that `doc_id` failed in some but not all formats |
| NewHarvester.PartialEntryIsLast | new_harvester/harvester.py:60-61 | the entry of an id holds the failed formats of the last partially failed record with that id, so later records overwrite earlier ones |
| NewHarvester.NoFormatsAllFailed | new_harvester/harvester.py:58-59 | with no formats every record counts as fully failed |
| NewHarvester.NoFormatsNoPartial | new_harvester/harvester.py:58-61 | with no formats `partial_failures` stays empty |
| NewHarvester.RetrieveFormats | new_harvester/harvester.py:41-51 | the inner loop collects exactly `FailedFormats` |
| NewHarvester.HarvestAllMetadata | new_harvester/harvester.py:24-61 | the statistics after the loop are `Run` of the identifiers |
| LegacyMetadata.LastLangText | legacy/harvester.py:80-84 | the text the loop over several elements keeps; `LastLangTextIsLast` states its contract |
| LegacyMetadata.LastLangTextIsLast | legacy/harvester.py:80-84 | the loop's text is that of the last element whose `xml:lang` is the requested language, and stays `None` when no language was requested or none matches |
| LegacyMetadata.GetSingleElement | legacy/harvester.py:75-91 | never `None`: no element gives `""`; one element gives its text whatever its language; several give the text of the last one whose `xml:lang` is the requested language, or `""` when no language was requested or none matches |
| LegacyMetadata.ItemFor | legacy/harvester.py:100-114 | an element yields an item exactly when its text is non-empty and it is outside the language branch or matches the language; the item is bare text exactly when `itemname == ''` in the language branch or `itemname` is falsy outside it, and otherwise `{itemname: text}` |
| LegacyMetadata.GetMultipleElements | legacy/harvester.py:95-115 | the results are `KeptItems`: the items `ItemFor` yields, in document order, one for every kept element and no other |
| LegacyMetadata.Append | legacy/harvester.py:139 | `fields[tag].append(text)` on the grouping kept as a list of fields; `AppendEffect` states its contract |
| LegacyMetadata.AppendEffect | legacy/harvester.py:139 | `fields[tag].append(text)` extends that tag's list only, adds the tag when it is new, and stores one more text |
| LegacyMetadata.GroupLookup | legacy/harvester.py:130-140 | each key lists the texts of the visited elements with that tag, in visit order |
| LegacyMetadata.GroupTags | legacy/harvester.py:130-140 | the keys are exactly the visited tags |
| LegacyMetadata.GroupTagsDistinct | legacy/harvester.py:130-140 | no key occurs twice |
| LegacyMetadata.GroupTotal | legacy/harvester.py:130-140 | the list lengths sum to the number of elements visited |
| LegacyMetadata.GroupListsNonEmpty | legacy/harvester.py:130-140 | every key maps to a non-empty list |
| LegacyMetadata.XmlToDict | legacy/harvester.py:130-140 | with `strip_ns=True` the function raises exactly when some element is visited; otherwise it returns the grouping of the visited elements |
| LegacyMetadata.StripNamespace | legacy/harvester.py:136-138 | stripping never lengthens a tag, and a tag without `{` stays as it is |
| LegacyMetadata.ClarkLocalName | legacy/harvester.py:136-138 | a tag `{uri}local` is stripped to `local` |
| LegacyMetadata.RetagKeeps | legacy/harvester.py:134-139 | the corrected loop keeps every element and its text and changes only the tags, and only with `strip_ns` |
| LegacyMetadata.XmlToDictIntended | legacy/harvester.py:130-140 | the corrected function never raises and groups the texts under the stripped tags |
| LegacyMetadata.PruneEntries | legacy/harvester.py:169-180 | the entries of a dictionary after pruning; `PrunedHasNoNone`, `PruneKeepsKeys`, `PruneFixesClean` and `PruneIdempotent` state its contract |
| LegacyMetadata.PrunedHasNoNone | legacy/harvester.py:169-180 | afterwards no key holds `None`: not in the dictionary, not in nested dictionaries, not in dictionaries stored directly in lists |
| LegacyMetadata.PruneFixesClean | legacy/harvester.py:169-180 | a dictionary with nothing to prune is left unchanged |
| LegacyMetadata.PruneIdempotent | legacy/harvester.py:169-180 | a second call changes nothing |
| LegacyMetadata.PruneKeepsKeys | legacy/harvester.py:169-180 | exactly the keys holding `None` go; the other keys stay in their order, each with its value pruned in turn |
| LegacyMetadata.PruneItemsKeepsOthers | legacy/harvester.py:175-178 | a list keeps its length, its `None` items, its scalars and its nested lists |
| LegacyMetadata.RemoveNoneFromDict | legacy/harvester.py:169-180 | the dictionary is pruned in place and the same object is returned |
| LegacyMetadata.PruneItemsInList | legacy/harvester.py:175-178 | the loop over a list prunes exactly its dictionary items |
| ZipHelper.Tail | legacy/harvester.py:205 | the tail of `os.path.split` is the text after the last `/`, or the whole path, and holds no `/` |
| ZipHelper.ZipItems | legacy/harvester.py:211-221 | the items `_get_zip_items` appends for a tree; `ItemsFollowPaths`, `ArchiveLayout`, `ArchiveNamesDistinct` and `EmptyDirectoryAddsNothing` state its contract |
| ZipHelper.ItemsFollowPaths | legacy/harvester.py:211-221 | item `k` joins the names leading to file `k` onto the source path and onto the item path; there is one item per file, and directories add none |
| ZipHelper.PathsValid | legacy/harvester.py:213-219 | the paths of a tree listed by `os.listdir` are made of valid names, and below a directory none is empty |
| ZipHelper.Join | legacy/harvester.py:217-218 | POSIX `os.path.join` of two paths; `ExtendIsJoin` states what repeated joins give |
| ZipHelper.ExtendIsJoin | legacy/harvester.py:217-218 | joining the names one level at a time equals one `os.path.join` with the names separated by `/` |
| ZipHelper.ArchiveLayout | legacy/harvester.py:202-203 | for a directory, each archive name is the file's path relative to the directory, without its basename, and each source is the directory path joined with that name |
| ZipHelper.PathsDistinct | legacy/harvester.py:213-219 | no file is reached twice |
| ZipHelper.SlashInjective | legacy/harvester.py:218 | different paths of valid names are spelled differently |
| ZipHelper.ArchiveNamesDistinct | legacy/harvester.py:211-221 | a directory's archive names are pairwise different |
| ZipHelper.EmptyDirectoryAddsNothing | legacy/harvester.py:213-219 | an empty directory adds no entry |
| ZipHelper.ItemList.Append | legacy/harvester.py:221 | `result.append` adds the item at the end |
| ZipHelper.GetZipItems | legacy/harvester.py:211-221 | `_get_zip_items` appends exactly `ZipItems` to the caller's list |
| ZipHelper.CompressDir | legacy/harvester.py:185-209 | the archive goes to `join(dst_path, dst_filename)`; a directory gives one entry per file with the layout and distinctness above; anything else gives one entry whose name is its last path component |

## Left out

- Network access is not modelled: `requests`, the `Session` setup, timeouts, TLS flags and the
  Sickle OAI-PMH client. Responses are the `fetch` parameter, with `None` for a request that
  raises. Protocol outcomes are the `outcome` oracle. `ListMetadataFormats` and
  `ListIdentifiers` are the `formats` and `identifiers` inputs.
- HTML and XML parsing with lxml is not modelled: `html.fromstring`, the `panel panel-info`
  XPath, `findall` and `etree.parse`. The anchors' `href`s and the elements are given as
  sequences.
- `urllib.parse.urlparse` is not modelled; scheme and netloc are given strings.
- Filesystem effects are not modelled: `os.makedirs`, the metadata files, `ZipFile` writing,
  and the summary report with `datetime.now()` (new_harvester/harvester.py:63-72). The
  report's failed count is `len` of the set (`ReportedCountsBounded`).
- `time.sleep`, logging, `print` and the unused `allowed` and `ext` locals are not modelled.
- `OaiFetcher` and the rest of legacy/harvester.py outside the helpers are not modelled:
  I/O sequencing around the client that references undefined names.
- The module-level call at legacy/dspace.py:101 and `get_record_files` (legacy/dspace.py:97-99)
  are not modelled: the latter only chains the two functions.
- DSpace.Response: header lookups are case-insensitive in `requests`. Here the header map is
  keyed by lower-case names. The body stands for both `response.text` and
  `response.content`: text is empty exactly when the bytes are, and character decoding is
  not modelled.
- DSpace.Folder.Write: only `""`, `.` and `..` fail, as names of a directory (the save
  directory or its parent). Other `open` failures are not modelled, and the model writes
  those names as files: a name that ends in `/` or `/..` or names an existing subdirectory
  (`./`, `sub/`, `a/..`), a name with `/` into a missing directory, permissions, a full disk.
- NewHarvester.FailedFormats: the oracle `outcome` is a function of the identifier and the
  format, so a format listed twice, or an identifier listed twice, gets the same outcome each
  time. `FailedFormatsExact`, `AllFailedIff` and `ClassifyRecord` rely on this when they speak
  of `f in formats`. OAI-PMH lists each metadata prefix once, and transient failures that
  differ between two tries of the same pair are not modelled.
- LegacyMetadata.StripNamespace: assumes a tag has no line break. XML names and namespace
  URIs do not hold one, and with one `.` in the pattern would stop at it.
- LegacyMetadata.RemoveNoneFromDict: the top-level dictionary is an object updated in place.
  Nested dictionaries and lists are values. So aliasing between nested objects, shared or
  cyclic structures, and the identity of nested objects are not modelled.
- ZipHelper.GetZipItems: the tree is a value given in `os.listdir` order. Symbolic links, and
  entries that change while the tree is walked, are not modelled. A path that does not exist
  takes the file branch, as `os.path.isdir` is false for it; the failure when `ZipFile.write`
  opens it is not modelled.
- ZipHelper.CompressDir: the archive's contents (compression, file bytes) are not modelled,
  only its path and the (source, archive name) list written in order.

## Findings

| source | as written | input that shows it | evidently intended | confidence | as-written member | corrected member |
|---|---|---|---|---|---|---|
| legacy/dspace.py:94 | `cont = cont+1` reads `cont`, a local of `get_article_download_dspace` that is never assigned before, so the loop raises `UnboundLocalError` at the end of its first pass | the dictionary `{'download0': url}` whose response saves fine: the function raises instead of returning `'ok'`, and a second entry is never fetched | every entry is fetched and saved in order and `'ok'` is returned | high, not executed | DSpace.GetArticleDownload | DSpace.GetArticleDownloadIntended |
| legacy/harvester.py:136 | `xml_to_dict` calls `re.sub` with `strip_ns=True`, but the module never imports `re` (legacy/harvester.py:6-21), so the call raises `NameError` | `strip_ns=True` with one element tagged `{http://purl.org/dc/elements/1.1/}title` | the texts are grouped under the local names (`title`) | high, not executed | LegacyMetadata.XmlToDict | LegacyMetadata.XmlToDictIntended |
