# A verified model of a PubMed topic-modelling pipeline

The pipeline prepares PubMed baseline abstracts for a BERTopic run, in four
scripts:

- **data_processor.py** downloads the 549 baseline archives `pubmed25n0001.xml.gz` …
  `pubmed25n0549.xml.gz`. Each archive is gunzipped and its `Article` elements are
  parsed. An article gives a record (title, authors, abstract, PubDate) only when
  it has a non-empty abstract and a publication date that pandas can parse. The
  records of each archive are written to one JSON file.
- **text_cleaner.py** turns the abstracts of each JSON file into one cleaned line
  per abstract:
  - ASCII letters are lower-cased;
  - everything except a–z and whitespace becomes a blank;
  - the text is tokenised, and stop words and short tokens are dropped;
  - the remaining tokens are joined with blanks.
- **fix_files.py** keeps the items whose PubDate string can be parsed. It numbers
  the kept items within each file and gives each its cleaned `tokens`.
- **run_bertopic.py** builds the corpus:
  - For each of the years 2005–2025 it takes that year's records. They come from a
    per-year cache file `data/master_<year>.json` or, when that file is missing,
    from one big source file; the cache file is then written.
  - It draws 10,000 records per year with `random.sample`.
  - It keeps the records with non-blank string tokens and a parsable date, as
    documents with their year as timestamp.

Each script's exceptions are part of the model. A Python exception is a
`PyError` value, and a step that can raise returns a `Result`. Four kinds of
behaviour become parameters:

- **File system:** a map from paths to contents. JSON files hold a `Json` value or
  do not parse.
- **Library services:** the network fetch, gzip, the XML parser, pandas' date
  parser (`DateLib`: which strings parse, and the year of a parsed date or NaT),
  NLTK's tokeniser and English stop-word list (`Normalizer`).
- **Listings:** the order of `os.listdir`.
- **Randomness:** the random draws of `random.sample`.

Modules:

- `Wrappers`: Option and Result.
- `PyStr`: the string built-ins the scripts use — `strip`, `join`, `split`,
  `replace`, `lower`, zero padding, `os.path.basename` and `os.path.join`, and
  `sorted`.
- `PyData`: JSON values, Python's `in` and `dict.get` on them, exceptions, and
  loading a JSON file.
- `Loops`: the generic accumulation loops. `Filter` is a comprehension with a
  condition. `Gather` is a loop that may append and may raise. `Flatten` is a
  loop that extends a list and may raise.
- `TextNormalizer`: `preprocess_text`, which text_cleaner.py and fix_files.py
  define identically.
- `DataProcessor`, `TextCleaner`, `FixFiles`, `RunBertopic`: one module per
  script.

The source's loops over files, records, XML elements and years are Dafny
methods with loop invariants. Each is proved equal to a function of its inputs,
and the lemmas about those functions state what the scripts promise:

- which records are kept, in input order;
- when the loop raises, and which exception it raises;
- which files are written;
- that a second run is idempotent.

## Model

| member | source | states |
|---|---|---|
| DataProcessor.FileNames | data_processor.py:16 | There are 549 archive names. |
| DataProcessor.FileNameNumbered | data_processor.py:16 | Name `k` is `pubmed25n` + the number `k+1`, zero-padded to four digits, + `.xml.gz`. Reading the four digits back gives `k+1`, and the name is 20 characters long. |
| DataProcessor.FileNamesDistinct | data_processor.py:16 | No archive name repeats. |
| DataProcessor.DropGz | data_processor.py:36 | Removing `.gz` from the suffix `.xml.gz` leaves `.xml`. |
| DataProcessor.DropXml | data_processor.py:110 | Removing `.xml` from the suffix `.xml` leaves nothing. |
| DataProcessor.DownloadOfStem | data_processor.py:27 | Joining an archive name `<stem>.xml.gz` under a directory without '/' gives `<dir>/<stem>.xml.gz`. |
| DataProcessor.RawOfStem | data_processor.py:36 | The raw path of `<any dir>/<stem>.xml.gz` is `<raw dir>/<stem>.xml`, for a stem without '.' or '/'. |
| DataProcessor.OutputOfStem | data_processor.py:110-111 | The output path of `<any dir>/<stem>.xml` is `<output dir>/<stem>.json`, for a stem without '.' or '/'. |
| DataProcessor.ArchivePaths | data_processor.py:104-111 | Archive `k` is downloaded to, extracted to and written to the three paths built from its own stem. |
| DataProcessor.StemInjective | data_processor.py:16 | Distinct archive numbers have distinct stems. |
| DataProcessor.OutputPathsDistinct | data_processor.py:110-111 | Distinct archives have distinct output paths, so no archive's JSON file overwrites another's. |
| DataProcessor.DownloadFileAsWritten | data_processor.py:25-33 | `download_file` as the code stands: an existing destination is returned without touching the disk. |
| DataProcessor.InterruptedDownloadIsReused | data_processor.py:28-30 | A transfer broken off after writing part of the file, followed by a re-run, reports success with the partial file and never fetches the complete one. |
| DataProcessor.DownloadFile | data_processor.py:25-33 | `download_file` with a failed transfer leaving no file. A failure leaves the disk unchanged. A success returns the destination path and adds exactly that path. |
| DataProcessor.DownloadFileSound | data_processor.py:25-33 | No file on disk changes. A newly stored file is exactly the complete body the network returned. |
| DataProcessor.DownloadFileIdempotent | data_processor.py:28 | A second download of the same name, whatever the network does, returns the same path and changes nothing. |
| DataProcessor.ExtractGzAsWritten | data_processor.py:35-44 | `extract_gz` as the code stands: an existing raw file is returned without touching the disk. |
| DataProcessor.CorruptArchiveIsReused | data_processor.py:37-41 | A corrupt archive leaves a truncated raw file. A re-run with a good archive reports that truncated file as extracted. |
| DataProcessor.ExtractGz | data_processor.py:35-44 | `extract_gz` with a failed decompression leaving no file. A failure leaves the disk unchanged. A success returns the raw path and adds exactly that path. |
| DataProcessor.ExtractGzSound | data_processor.py:35-44 | No file on disk changes. A newly stored raw file is exactly the decompressed content of the archive found on disk. |
| DataProcessor.ExtractGzIdempotent | data_processor.py:37 | A second extraction, whatever gzip does, returns the same path and changes nothing. |
| DataProcessor.PiecesAreStrippedContributions | data_processor.py:56 | The pieces joined into the abstract are the stripped texts of the AbstractText elements that have a non-empty text, in document order. |
| DataProcessor.PiecesInDocumentOrder | data_processor.py:55-56 | Piece `k` is the stripped text of AbstractText `pos[k]`, which has a non-empty text, and the positions increase. Every AbstractText with a non-empty text is among them. |
| DataProcessor.AbstractEmptyIff | data_processor.py:55-58 | The abstract is empty exactly when no AbstractText has a non-empty text, or exactly one has and it is all whitespace. |
| DataProcessor.BlankAbstracts | data_processor.py:56-58 | One whitespace-only AbstractText gives an empty abstract. Two whitespace-only ones give a single blank, which is not empty, so that article is kept. |
| DataProcessor.DashJoin | data_processor.py:66-71 | The date string is Year, then `-Month` when Month is non-empty, then `-Day` when Day is non-empty. |
| DataProcessor.PubDateShape | data_processor.py:61-71 | The same shape, from the PubDate element: an absent element or child reads as "". |
| DataProcessor.PubDateStripped | data_processor.py:72-74 | The date string is already stripped, so the stored date is the joined string. |
| DataProcessor.AuthorNameShape | data_processor.py:87-90 | An author has a name exactly when the stripped fore or last name is non-empty. The name is then non-empty: `Fore Last`, or whichever of the two stripped parts is non-empty. |
| DataProcessor.AuthorListFacts | data_processor.py:85-90 | The author list has at most one entry per Author element, and no entry is empty. |
| DataProcessor.CollectAuthors | data_processor.py:85-90 | The author loop computes exactly that list. |
| DataProcessor.ExtractArticleStep | data_processor.py:55-100 | The loop body for one Article, running the author loop, gives the Article's outcome: skipped, the AttributeError, or the record. ParseArticles runs it for every Article. |
| DataProcessor.ArticleSkipped | data_processor.py:55-77 | An article is skipped exactly when its abstract is empty or pandas rejects its date string. |
| DataProcessor.ArticleRaises | data_processor.py:80-81 | A kept article without an ArticleTitle child raises an AttributeError. |
| DataProcessor.ArticleEmitted | data_processor.py:95-100 | Otherwise the record holds the stripped title ("" for a title without text), the author list, the abstract and the date string. |
| DataProcessor.ParseArticles | data_processor.py:48-102 | The article loop returns the parsed records, or the first exception raised. |
| DataProcessor.ParsedFailsIff | data_processor.py:80-81 | Parsing raises exactly when some article passes the abstract and date filter but has no title element, and then with an AttributeError. |
| DataProcessor.ParsedInDocumentOrder | data_processor.py:53-101 | Record `k` comes from article `pos[k]`, and the positions increase. Every article that would give a record is among them. |
| DataProcessor.ParsedRecordsValid | data_processor.py:53-101 | There are at most as many records as articles. Every record has a non-empty abstract, a stripped date string that pandas accepts, and no empty author name. |
| DataProcessor.RecordsJson | data_processor.py:114-115 | One JSON object is written per record. |
| DataProcessor.Fetch | data_processor.py:106-107 | Download then extract, with the corrected steps. A success names the raw file, which is on disk, and files stored before are kept. |
| DataProcessor.FetchAsWritten | data_processor.py:106-107 | Download then extract as written. A success names the raw file, which is on disk. |
| DataProcessor.FetchDiffersOnlyByPartialFile | data_processor.py:25-44 | Both versions raise the same exception or return the same path. After a success they leave the same disk. After a failure the version as written holds every file of the corrected one, plus at most the partial file at the download or the raw path. |
| DataProcessor.ProcessFile | data_processor.py:104-115 | `process_file`. A success writes, at the archive's output path only, one JSON object per record that the raw file gives. A failure writes no output. Files stored before never change. |
| DataProcessor.HoldsArchiveKept | data_processor.py:110-115 | Writing another archive's output keeps an archive's output file and raw file as they were, because the 549 output paths are distinct. |
| DataProcessor.ProcessAll | data_processor.py:117-121 | `main`. After a run that raises nothing, each of the 549 archives has its raw file on disk, and its output file holds one JSON object per record that this raw file gives. No output is lost, and no stored file is lost or changed. |
| TextNormalizer.MaskedAlphabet | text_cleaner.py:21-22 | After lower-casing and the regular expression, the text has the same length and holds only a–z and whitespace. A position holds a letter exactly when the input held an ASCII letter there. Whitespace is kept as it was. |
| TextNormalizer.TokensValid | text_cleaner.py:15-24 | Every kept token is longer than two characters and is neither an NLTK English stop word nor one of the seven extra words. |
| TextNormalizer.TokensInOrder | text_cleaner.py:23-24 | The kept tokens are exactly the tokeniser's tokens that pass the test, in order. |
| TextNormalizer.PreprocessSplit | text_cleaner.py:23-25 | With whitespace-free tokens, the result is empty exactly when no token is kept. Splitting it on blanks gives the kept tokens back. |
| TextNormalizer.PreprocessBlank | text_cleaner.py:42 | With whitespace-free tokens, the stripped result is blank exactly when no token is kept. |
| TextNormalizer.PreprocessOneLine | text_cleaner.py:25 | With whitespace-free tokens, the result holds no newline. |
| TextCleaner.CleanRecords | text_cleaner.py:32-43 | The record loop computes the docs of the records, or the exception. |
| TextCleaner.CleanedFailsIff | text_cleaner.py:33-39 | The loop raises exactly when some record is not a dict, and then with an AttributeError. |
| TextCleaner.CleanedInOrder | text_cleaner.py:39-43 | The docs are the cleaned abstracts of exactly the records whose abstract is a string longer than 20 characters with a non-blank cleaned text, in record order. |
| TextCleaner.DateIgnored | text_cleaner.py:34-38 | Changing a record's PubDate never changes the docs. |
| TextCleaner.CleanedLineCount | text_cleaner.py:46-48 | With a whitespace-splitting tokeniser, the written text has one newline per doc. Splitting it on newlines gives the docs back. |
| TextCleaner.WriteDocs | text_cleaner.py:46-48 | The write loop produces each doc followed by a newline, in order. |
| TextCleaner.PreprocessFile | text_cleaner.py:28-48 | On success only the output file changes, and it holds the docs. On an exception the text files are as they were. |
| TextCleaner.CleanedNameShape | text_cleaner.py:62 | The output name of a `.json` name ends in `_cleaned.txt`. For `stem.json` with no '.' in the stem, it is `stem_cleaned.txt`. |
| TextCleaner.CleanFolder | text_cleaner.py:58-63 | After a run that raises nothing, every `.json` name has its output file. Its input file loads and cleans, and the output file holds those docs one per line, unless a later `.json` name has the same output path ("a.json.json" and "a_cleaned.txt.json" do). A text file that is no name's output never changes, and none disappears. |
| FixFiles.ConditionMeaning | fix_files.py:54 | The condition holds exactly for dicts whose PubDate is a string pandas parses. It raises, always with a TypeError, exactly for a number, bool or null, a string containing "PubDate", and a list holding the string "PubDate". |
| FixFiles.WithTokensAfterIndex | fix_files.py:55-56 | Numbering before adding the tokens fails, or succeeds, exactly as adding the tokens does. |
| FixFiles.FilterAndIndex | fix_files.py:52-58 | The item loop computes the filtered items, or the exception. On success the counter equals the number of kept items. |
| FixFiles.FilteredFailsIff | fix_files.py:53-57 | The loop raises exactly when some item makes the condition raise, or is valid without a string Abstract. |
| FixFiles.FilteredExactlyValid | fix_files.py:52-58 | The kept items are exactly the valid items, in input order. Kept item `k` is input item `pos[k]` with `index` = k and `tokens` = its cleaned Abstract. |
| FixFiles.FilteredIndices | fix_files.py:40-58 | The kept items of each file carry the numbers 0, 1, …, n−1 in order. |
| FixFiles.FixFile | fix_files.py:44-62 | On success the file of the same name in the output folder holds the filtered items, and nothing else changes. On an exception no output file changes. |
| FixFiles.OutputPathsDistinct | fix_files.py:45 | Distinct names have distinct output paths. |
| FixFiles.SortedListing | fix_files.py:39 | The sorted listing is still duplicate-free and slash-free. |
| FixFiles.FaithfulStep | fix_files.py:61-62 | Writing one name's output keeps the outputs of the earlier names. |
| FixFiles.ProgressStep | fix_files.py:41-62 | A non-`.json` name changes nothing. A `.json` name writes its own output file only. |
| FixFiles.FixEach | fix_files.py:39-64 | After a loop that raises nothing, every `.json` name's output holds its filtered items. Outputs that no name writes are unchanged. An exception comes from a `.json` name whose file fails, and then every earlier name's output is written. |
| FixFiles.FixFolder | fix_files.py:39 | The same, for the names in sorted order. |
| PyStr.Strip | data_processor.py:56 | The result is stripped, and it is empty exactly when the input is all whitespace. An already stripped string is unchanged. |
| PyStr.Lower | text_cleaner.py:21 | Character by character, ASCII capitals become small letters and nothing else changes. |
| PyStr.Pad4RoundTrip | data_processor.py:16 | Four-digit zero padding of a number below 10000 reads back as that number. |
| PyStr.SortedIsSorted | fix_files.py:39 | `sorted` gives an ordered permutation of the names. |
| PyStr.LinesRoundTrip | text_cleaner.py:47-48 | Writing docs that hold no newline, one per line, and splitting on newlines gives them back. The text has one newline per doc. |
| PyStr.ReplaceKeepsSuffix | text_cleaner.py:62 | After replacing a pattern that cannot overlap itself, a string ending in that pattern ends in the replacement. |
| PyStr.BasenameUnder | data_processor.py:36 | The basename of `dir/name` is `name`. |
| RunBertopic.LoadAllData | run_bertopic.py:15-34 | The directory loop gathers the metatopic records of every `.json` file that holds a list, in listing order, and counts those files. |
| RunBertopic.TopicEntriesFailsIff | run_bertopic.py:26 | The comprehension raises exactly when some entry's test raises. |
| RunBertopic.TopicEntriesInOrder | run_bertopic.py:26 | The kept entries are exactly the entries whose tokens hold `cancer`, in order. |
| RunBertopic.TopicRecordsHoldTopic | run_bertopic.py:24-27 | Every gathered record is a dict whose tokens hold the metatopic. |
| RunBertopic.TopicRecordsAppend | run_bertopic.py:19-27 | Records are gathered file by file: one more name adds that file's records at the end. |
| RunBertopic.CountedFilesMeaning | run_bertopic.py:19-30 | `file_count` counts, in listing order, exactly the `.json` files that load, hold a list and raise nothing in the filter. |
| RunBertopic.ParsePubdate | run_bertopic.py:36-41 | It never raises. It is None exactly when pandas rejects the value, and it is the parsed year when pandas gives a date. |
| RunBertopic.PrepareCorpus | run_bertopic.py:43-56 | The record loop computes the corpus, or the exception. |
| RunBertopic.PreparedFailsIff | run_bertopic.py:47-49 | The loop raises exactly when some record is not a dict, and then with an AttributeError. |
| RunBertopic.PreparedInOrder | run_bertopic.py:47-54 | There is one doc and one timestamp per record with non-blank string tokens and a parsable date, in record order. Each doc is the stripped tokens, and each timestamp is that record's parsed date. |
| RunBertopic.Pick | run_bertopic.py:86 | A draw of `k` positions from a pool has `k` elements, all from the pool. |
| RunBertopic.PickDistinct | run_bertopic.py:86 | Drawing from distinct positions gives distinct positions. |
| RunBertopic.Sample | run_bertopic.py:86 | `random.sample` raises exactly when `k` exceeds the population, always with the same sample-larger-than-population error, and otherwise returns `k` elements. |
| RunBertopic.SamplePositions | run_bertopic.py:86 | A sample is drawn without replacement: element `a` is the population's element at position `pos[a]`, and the positions are distinct. |
| RunBertopic.MasterFileDistinct | run_bertopic.py:66 | Distinct years have distinct cache files, and none of them is the source file. |
| RunBertopic.YearRecordsExact | run_bertopic.py:79 | The partition of the records for a year holds exactly the records whose PubDate's year is that year, in order. |
| RunBertopic.YearRecordsFailsIff | run_bertopic.py:79 | The partition raises exactly when some record is not a dict, has no PubDate or has a PubDate pandas rejects. |
| RunBertopic.YearSample | run_bertopic.py:86 | A sample that succeeds holds exactly 10,000 records. |
| RunBertopic.WrittenElsewhere | run_bertopic.py:83-84 | A file that no pass writes is as the loop found it. |
| RunBertopic.WrittenKeeps | run_bertopic.py:67-84 | A loop that writes only files that did not exist overwrites no file. |
| RunBertopic.WrittenAt | run_bertopic.py:83-84 | What a pass writes is still there after later passes, which write other files. |
| RunBertopic.DiskAfterElsewhere | run_bertopic.py:66-84 | A file that is none of the reached years' cache files is unchanged. |
| RunBertopic.DiskKeepsFiles | run_bertopic.py:67-71 | No file found on disk is overwritten, in particular an existing cache file. |
| RunBertopic.DiskWritten | run_bertopic.py:79-84 | A year without a cache file whose partition succeeded has one afterwards, holding its partition. |
| RunBertopic.SampledSize | run_bertopic.py:86-87 | After `n` years that raised nothing, `sampled_records` has exactly 10,000·n records. |
| RunBertopic.SampledBlock | run_bertopic.py:86-87 | Block `t` of `sampled_records` is the sample of year 2005+t. |
| RunBertopic.PartitionSample | run_bertopic.py:79-86 | A sample of a year's partition is 10,000 records at distinct positions of the partition, all of that year. |
| RunBertopic.SampledOfYear | run_bertopic.py:72-87 | For a year the run partitioned itself, every record of its block has a PubDate in that year. |
| RunBertopic.UntouchedSoFar | run_bertopic.py:66-84 | The first `i` years touch neither a later year's cache file nor the source file. |
| RunBertopic.RecordsStep | run_bertopic.py:66-84 | `records_of_year` for a reached year, the disk after it, and the source loaded at most once, exactly when some year so far had no cache file. |
| RunBertopic.AllCachedMeaning | run_bertopic.py:67 | All first `n` years are cached exactly when each of their cache files exists. |
| RunBertopic.SampledStep | run_bertopic.py:65-87 | One more year: the exception so far, else the pass's exception, else the samples extended by the pass's. |
| RunBertopic.SampledSticks | run_bertopic.py:65-87 | Once a year raises, the loop ends with that exception. |
| RunBertopic.YearStep | run_bertopic.py:66-87 | One pass of the year loop computes the model's pass and keeps the loop state, or stops with its exception. |
| RunBertopic.SampleYears | run_bertopic.py:59-87 | The year loop returns the samples of all 21 years, or the first exception together with the year it happened in. The disk it leaves is the disk after those years. The source file is loaded at most once, and only when some reached year had no cache file. |
| RunBertopic.CachedYear | run_bertopic.py:66-84 | After year `t` its cache file exists, and reading it gives that year's records. |
| RunBertopic.ReplayYear | run_bertopic.py:66-87 | A pass that succeeded comes out the same on the disk the run leaves. |
| RunBertopic.CachedDiskStays | run_bertopic.py:67-71 | A run on a disk that has every year's cache file writes nothing. |
| RunBertopic.ReplayPasses | run_bertopic.py:65-87 | When a run samples every year, every pass comes out the same on the disk it leaves. |
| RunBertopic.CacheReplay | run_bertopic.py:64-84 | When a run samples every year, a second run with the same draws finds every cache file and writes nothing. It samples exactly the same records. |
| RunBertopic.RunMain | run_bertopic.py:58-94 | `main` up to the topic model computes the model's outcome: the exception, nothing for an empty corpus, or the corpus. A run that samples every year leaves the disk as the 21 years write it. No file that existed before changes. |
| RunBertopic.MainCorpus | run_bertopic.py:89-94 | The corpus handed to BERTopic is non-empty, has as many timestamps as documents and at most 210,000 of them, and every document is non-empty and stripped. |

## Left out

- The network, gzip and the XML parser are parameters. The byte formats, the
  element search and `ET.parse` are not modelled. A parse error is one
  `XmlParseError`.
- `json.dump`'s formatting (indentation, `ensure_ascii`, key order) is left out,
  and a written file is the JSON value it holds. JSON numbers are integers. Floats
  do not occur in the files the scripts write.
- Pandas is a parameter (`DateLib`): which strings `pd.to_datetime` accepts, and
  the year of a parsed date or NaT. The date grammar is not modelled.
  `parse_pubdate` returns NaN for NaT rather than None, so such a record is kept
  with a NaN timestamp. The model follows the code here.
- NLTK (`word_tokenize`, the English stop-word list, `nltk.download`) is a
  parameter. Properties that need the tokeniser to split on whitespace take that
  as a premise and say so.
- `PyStr.Lower`: `str.lower` is modelled on ASCII letters only, and every other
  character keeps its case. Python lower-cases some non-ASCII characters to ASCII
  letters, which the regular expression then keeps: KELVIN SIGN (U+212A) becomes
  "k", and U+0130 becomes "i" followed by a combining dot. The model blanks those
  characters out instead, so it loses those letters.
- `os.listdir`'s order is a listing parameter, and `sorted` is modelled as
  ordering by code point.
- `random.sample` is modelled as a partial Fisher–Yates draw over given draws.
  The draws are given, not produced by CPython's generator. CPython's exact
  algorithm and seed are not modelled.
- `RunBertopic.LoadAllData`: `main` never calls `load_all_data`. It is modelled on
  its own, with its `except Exception` branches swallowing the file's
  contribution as the code does. "`cancer` in tokens" is a substring test for
  string tokens, and a test for an element equal to "cancer" for list tokens.
- A top-level JSON value that is not a list makes the scripts iterate over a
  dict's keys or a string's characters. The model raises `NotAnArray` there
  instead.
- `FixFiles.FixFile`: the in-place mutation of the loaded items is modelled on
  values. An exception ends the script, so a partly mutated item is never
  written.
- The four scripts read and write different folders (`processed_new`,
  `processed_very_new`, `processed`, `cleaned`, `tokenized`). Each module keeps
  its script's own constants, and the model does not chain the scripts.
- Fitting BERTopic, reducing topics, saving the model with `joblib` (not imported
  at run_bertopic.py:101) and the visualisations (run_bertopic.py:96-114) are
  left out.
- Progress bars (`tqdm`), `print`, `os.makedirs` and the printed warnings have no
  effect on the modelled state and are left out.
- An error while writing the output file is not modelled: writing always
  succeeds.
- `DataProcessor.Fetch`: ProcessFile and ProcessAll use the corrected download
  and extraction steps. After a broken transfer or a corrupt archive, their disk
  therefore lacks the partial file the code as written leaves behind.
  FetchDiffersOnlyByPartialFile shows that this is the only difference: the
  exceptions, the paths and the outputs are the same. A partial file left by an
  earlier run is part of the input disk.

## Findings

| source | as written | input that shows it | evidently intended | confidence | as-written member | corrected member |
|---|---|---|---|---|---|---|
| data_processor.py:28-30 | `urlretrieve` writes the destination file as it goes, and the existence check treats any file there as downloaded | A transfer broken off after some bytes, then a re-run: the partial archive is kept for good | A download that fails leaves no file, so a re-run fetches the archive again | not executed | DataProcessor.InterruptedDownloadIsReused | DataProcessor.DownloadFileSound |
| data_processor.py:37-41 | The raw file is opened before the archive is read and is skipped if it exists | A corrupt or truncated `.gz`, then a re-run with a good archive: the truncated raw file is reported as already extracted | A decompression that fails leaves no raw file, so a re-run extracts again | not executed | DataProcessor.CorruptArchiveIsReused | DataProcessor.ExtractGzSound |
