/**
 * data_processor.py: the list of baseline archives, the local paths derived
 * from an archive's name, fetching and decompressing with skip-if-exists, and
 * the extraction of one record per usable Article element of a parsed dump.
 */
module DataProcessor {
  import opened Wrappers
  import opened PyStr
  import opened PyData
  import opened Loops

  // ---------------------------------------------------------------------------
  // Configuration and the list of archives
  // ---------------------------------------------------------------------------

  const DOWNLOAD_DIR := "data/download"        // os.path.join(DATA_DIR, 'download')
  const RAW_DIR := "data/raw"
  const PROCESSED_DIR := "data/processed_new"
  const BASE_URL := "https://ftp.ncbi.nlm.nih.gov/pubmed/baseline/"

  const FILE_PREFIX := "pubmed25n"
  const ARCHIVE_SUFFIX := ".xml.gz"

  /** `f"pubmed25n{num:0>4}.xml.gz"` */
  function FileName(num: nat): string {
    FILE_PREFIX + Pad4(num) + ARCHIVE_SUFFIX
  }

  /** `FILE_NAMES`: one archive name per number in `range(1, 550)`. */
  function FileNames(): (r: seq<string>)
    ensures |r| == 549
  {
    seq(549, k requires 0 <= k < 549 => FileName(k + 1))
  }

  /** Reads the archive number back out of a name of the FILE_NAMES shape. */
  function ArchiveNumber(name: string): Option<nat> {
    if |name| == 20 && StartsWith(name, FILE_PREFIX) && EndsWith(name, ARCHIVE_SUFFIX)
       && AllDigits(name[9..13])
    then Some(ParseDecimal(name[9..13]))
    else None
  }

  /** The `k`-th name is the prefix, the number `k + 1` in four digits and the
      suffix; it carries that number, so the numbers run 1, 2, ..., 549. */
  lemma FileNameNumbered(k: nat)
    requires k < 549
    ensures FileNames()[k] == FILE_PREFIX + Pad4(k + 1) + ARCHIVE_SUFFIX
    ensures |FileNames()[k]| == 20
    ensures ArchiveNumber(FileNames()[k]) == Some(k + 1)
  {
    Pad4RoundTrip(k + 1);
    var name := FileNames()[k];
    assert name[9..13] == Pad4(k + 1);
    assert name[..9] == FILE_PREFIX;
    assert name[|name| - 7..] == ARCHIVE_SUFFIX;
  }

  lemma FileNamesDistinct(j: nat, k: nat)
    requires j < 549 && k < 549 && j != k
    ensures FileNames()[j] != FileNames()[k]
  {
    FileNameNumbered(j);
    FileNameNumbered(k);
  }

  // ---------------------------------------------------------------------------
  // Paths derived from an archive name (download_file, extract_gz, process_file)
  // ---------------------------------------------------------------------------

  function DownloadPath(filename: string): string {
    PathJoin(DOWNLOAD_DIR, filename)
  }

  /** `extract_gz`: the basename of the archive with every ".gz" removed, under RAW_DIR. */
  function RawPath(gzPath: string): string {
    PathJoin(RAW_DIR, Replace(Basename(gzPath), ".gz", ""))
  }

  /** `process_file`: the basename of the raw file with every ".xml" removed, plus ".json". */
  function OutputPath(xmlPath: string): string {
    PathJoin(PROCESSED_DIR, Replace(Basename(xmlPath), ".xml", "") + ".json")
  }

  /** The stem of the k-th archive name: "pubmed25n" and four digits. */
  function Stem(k: nat): string {
    FILE_PREFIX + Pad4(k + 1)
  }

  /** A stem: a non-empty name holding no '.' and no '/'. */
  predicate PlainStem(stem: string) {
    stem != [] && forall i :: 0 <= i < |stem| ==> stem[i] != '.' && stem[i] != '/'
  }

  /** A stem followed by characters that are neither '.' nor '/' is a stem. */
  lemma PlainAppend(a: string, b: string)
    requires PlainStem(a) && forall i :: 0 <= i < |b| ==> b[i] != '.' && b[i] != '/'
    ensures PlainStem(a + b)
  {
    forall i | 0 <= i < |a + b| ensures (a + b)[i] != '.' && (a + b)[i] != '/' {
      if i < |a| { assert (a + b)[i] == a[i]; } else { assert (a + b)[i] == b[i - |a|]; }
    }
  }

  /** The prefix followed by digits is a stem. */
  lemma DigitsStem(digits: string)
    requires AllDigits(digits)
    ensures PlainStem(FILE_PREFIX + digits)
  {
    forall i | 0 <= i < |digits| ensures digits[i] != '.' && digits[i] != '/' {
      assert IsDigit(digits[i]);
    }
    assert PlainStem(FILE_PREFIX);
    PlainAppend(FILE_PREFIX, digits);
  }

  /** The archive stems are thirteen characters without '.' or '/'. */
  lemma StemPlain(k: nat)
    requires k < 549
    ensures |Stem(k)| == 13 && PlainStem(Stem(k))
  {
    Pad4RoundTrip(k + 1);
    DigitsStem(Pad4(k + 1));
  }

  /** The directory constants are plain relative paths: non-empty, no trailing '/'. */
  predicate PlainDir(dir: string) {
    dir != [] && dir[|dir| - 1] != '/'
  }

  lemma DropGz()
    ensures Replace(".xml.gz", ".gz", "") == ".xml"
  {
    assert ".xml.gz"[..3] == ".xm" && ".xml.gz"[1..] == "xml" + ".gz";
    ReplaceAfterPlain("xml", ".gz", ".gz", "");
    ReplaceAtStart(".gz", "", "");
    assert ".gz" + "" == ".gz";
  }

  lemma DropXml()
    ensures Replace(".xml", ".xml", "") == ""
  {
    ReplaceAtStart(".xml", "", "");
    assert ".xml" + "" == ".xml";
  }

  lemma NameOfStem(k: nat)
    requires k < 549
    ensures FileNames()[k] == Stem(k) + ".xml.gz"
  {
    var names := FileNames();
    assert names[k] == FileName(k + 1);
  }

  /** `download_file`'s destination for `stem + ".xml.gz"`. */
  lemma DownloadOfStem(dl: string, stem: string)
    requires PlainDir(dl) && PlainStem(stem)
    ensures PathJoin(dl, stem + ".xml.gz") == dl + "/" + (stem + ".xml.gz")
  {
    assert (stem + ".xml.gz")[0] == stem[0];
    PathJoinPlain(dl, stem + ".xml.gz");
  }

  /** `extract_gz` on the download path of `stem + ".xml.gz"`. */
  lemma RawOfStem(dl: string, raw: string, stem: string)
    requires PlainDir(raw) && PlainStem(stem)
    ensures PathJoin(raw, Replace(Basename(dl + "/" + (stem + ".xml.gz")), ".gz", ""))
            == raw + "/" + (stem + ".xml")
  {
    var name := stem + ".xml.gz";
    assert '/' !in name;
    BasenameUnder(dl, name);
    ReplaceAfterPlain(stem, ".xml.gz", ".gz", "");
    DropGz();
    PathJoinPlain(raw, stem + ".xml");
  }

  /** `process_file` on the raw path of `stem + ".xml"`. */
  lemma OutputOfStem(raw: string, proc: string, stem: string)
    requires PlainDir(proc) && PlainStem(stem)
    ensures PathJoin(proc, Replace(Basename(raw + "/" + (stem + ".xml")), ".xml", "") + ".json")
            == proc + "/" + (stem + ".json")
  {
    var xml := stem + ".xml";
    assert '/' !in xml;
    BasenameUnder(raw, xml);
    ReplaceAfterPlain(stem, ".xml", ".xml", "");
    DropXml();
    assert stem + "" == stem;
    PathJoinPlain(proc, stem + ".json");
  }

  /** For every archive of FILE_NAMES the download, raw and output paths are the
      name under the download directory, the name without ".gz" under the raw
      directory, and the stem plus ".json" under the processed directory. */
  lemma ArchivePaths(k: nat)
    requires k < 549
    ensures DownloadPath(FileNames()[k]) == DOWNLOAD_DIR + "/" + (Stem(k) + ".xml.gz")
    ensures RawPath(DownloadPath(FileNames()[k])) == RAW_DIR + "/" + (Stem(k) + ".xml")
    ensures OutputPath(RawPath(DownloadPath(FileNames()[k]))) == PROCESSED_DIR + "/" + (Stem(k) + ".json")
  {
    StemPlain(k);
    NameOfStem(k);
    assert PlainDir(DOWNLOAD_DIR) && PlainDir(RAW_DIR) && PlainDir(PROCESSED_DIR);
    DownloadOfStem(DOWNLOAD_DIR, Stem(k));
    RawOfStem(DOWNLOAD_DIR, RAW_DIR, Stem(k));
    OutputOfStem(RAW_DIR, PROCESSED_DIR, Stem(k));
  }

  /** Two different names of one length stay different under a directory and
      before a suffix. */
  lemma DistinctUnder(dir: string, x: string, y: string, suffix: string)
    requires |x| == |y| && x != y
    ensures dir + "/" + (x + suffix) != dir + "/" + (y + suffix)
  {
    var a := dir + "/";
    assert (a + (x + suffix))[|a|..|a| + |x|] == x;
    assert (a + (y + suffix))[|a|..|a| + |y|] == y;
  }

  lemma PrefixCancel(a: string, x: string, y: string)
    requires a + x == a + y
    ensures x == y
  {
    assert (a + x)[|a|..] == x;
    assert (a + y)[|a|..] == y;
  }

  lemma StemInjective(j: nat, k: nat)
    requires j < 549 && k < 549 && Stem(j) == Stem(k)
    ensures j == k
  {
    PrefixCancel(FILE_PREFIX, Pad4(j + 1), Pad4(k + 1));
    Pad4Injective(j + 1, k + 1);
  }

  /** Different archives are written to different output files. */
  lemma OutputPathsDistinct(j: nat, k: nat)
    requires j < 549 && k < 549 && j != k
    ensures OutputPath(RawPath(DownloadPath(FileNames()[j])))
         != OutputPath(RawPath(DownloadPath(FileNames()[k])))
  {
    ArchivePaths(j);
    ArchivePaths(k);
    StemPlain(j);
    StemPlain(k);
    if Stem(j) == Stem(k) {
      StemInjective(j, k);
    }
    DistinctUnder(PROCESSED_DIR, Stem(j), Stem(k), ".json");
  }

  // ---------------------------------------------------------------------------
  // Fetching and decompressing with skip-if-exists
  // ---------------------------------------------------------------------------

  type Bytes = seq<bv8>

  /** What `urlretrieve` gets: no connection (nothing is written), the whole body,
      or a transfer broken off after some bytes were written to the file. */
  datatype Transfer = Unreachable | Complete(data: Bytes) | Interrupted(partial: Bytes)

  /** What copying a gzip stream yields: the whole content, or an error raised
      after part of it (possibly nothing) was written to the open output file. */
  datatype Inflation = Inflated(data: Bytes) | Corrupt(partial: Bytes)

  /** A file system after a step, and the path returned or the exception raised. */
  datatype Step = Step(files: map<string, Bytes>, result: Result<string, PyError>)

  /** `download_file` as written: `urlretrieve` leaves whatever it wrote before a
      broken transfer at the destination. */
  function DownloadFileAsWritten(files: map<string, Bytes>, filename: string, fetch: string -> Transfer): (r: Step)
    ensures DownloadPath(filename) in files ==> r == Step(files, Success(DownloadPath(filename)))
  {
    var dest := DownloadPath(filename);
    var url := BASE_URL + filename;
    if dest in files then Step(files, Success(dest))
    else match fetch(url)
      case Unreachable => Step(files, Failure(TransferError(url)))
      case Complete(data) => Step(files[dest := data], Success(dest))
      case Interrupted(partial) => Step(files[dest := partial], Failure(TransferError(url)))
  }

  /** A broken transfer followed by a re-run: the second run finds the partial
      file, reports it as downloaded and never fetches the complete archive. */
  lemma InterruptedDownloadIsReused(files: map<string, Bytes>, filename: string, partial: Bytes, data: Bytes)
    requires DownloadPath(filename) !in files && partial != data
    ensures var first := DownloadFileAsWritten(files, filename, _ => Interrupted(partial));
            var second := DownloadFileAsWritten(first.files, filename, _ => Complete(data));
            first.result.Failure? && second.result == Success(DownloadPath(filename))
            && second.files[DownloadPath(filename)] == partial != data
  {
  }

  /** `download_file` as intended: a transfer that fails leaves no file behind. */
  function DownloadFile(files: map<string, Bytes>, filename: string, fetch: string -> Transfer): (r: Step)
    ensures r.result.Failure? ==> r.files == files
    ensures r.result.Success? ==> r.result.value == DownloadPath(filename)
    ensures r.result.Success? ==> r.files.Keys == files.Keys + {DownloadPath(filename)}
  {
    var dest := DownloadPath(filename);
    var url := BASE_URL + filename;
    if dest in files then Step(files, Success(dest))
    else match fetch(url)
      case Complete(data) => Step(files[dest := data], Success(dest))
      case _ => Step(files, Failure(TransferError(url)))
  }

  /** A download either finds the file already present and changes nothing, or
      stores exactly the complete archive; nothing else on disk changes. */
  lemma DownloadFileSound(files: map<string, Bytes>, filename: string, fetch: string -> Transfer)
    ensures var r := DownloadFile(files, filename, fetch);
            var dest := DownloadPath(filename);
            (forall p :: p in files ==> p in r.files && r.files[p] == files[p])
            && (r.result.Success? && dest !in files ==> fetch(BASE_URL + filename) == Complete(r.files[dest]))
  {
  }

  /** Idempotence: a second download of the same name changes nothing, returns
      the same path and does not depend on the network at all. */
  lemma DownloadFileIdempotent(files: map<string, Bytes>, filename: string, fetch: string -> Transfer, fetch2: string -> Transfer)
    requires DownloadFile(files, filename, fetch).result.Success?
    ensures var first := DownloadFile(files, filename, fetch);
            DownloadFile(first.files, filename, fetch2) == first
  {
  }

  /** `extract_gz` as written: the output file is opened before the archive is
      read, so a corrupt archive leaves a truncated raw file behind. */
  function ExtractGzAsWritten(files: map<string, Bytes>, gzPath: string, gunzip: Bytes -> Inflation): (r: Step)
    ensures RawPath(gzPath) in files ==> r == Step(files, Success(RawPath(gzPath)))
  {
    var raw := RawPath(gzPath);
    if raw in files then Step(files, Success(raw))
    else if gzPath !in files then Step(files, Failure(FileNotFound(gzPath)))
    else match gunzip(files[gzPath])
      case Inflated(data) => Step(files[raw := data], Success(raw))
      case Corrupt(partial) => Step(files[raw := partial], Failure(DecompressionError(gzPath)))
  }

  /** A corrupt archive, then a re-run with a good one: the re-run reports the
      truncated file as already extracted. */
  lemma CorruptArchiveIsReused(files: map<string, Bytes>, gzPath: string, partial: Bytes, data: Bytes, good: Bytes)
    requires gzPath in files && RawPath(gzPath) !in files && partial != data
    ensures var first := ExtractGzAsWritten(files, gzPath, _ => Corrupt(partial));
            var second := ExtractGzAsWritten(first.files[gzPath := good], gzPath, _ => Inflated(data));
            first.result.Failure? && second.result == Success(RawPath(gzPath))
            && second.files[RawPath(gzPath)] == partial != data
  {
    var first := ExtractGzAsWritten(files, gzPath, _ => Corrupt(partial));
    assert RawPath(gzPath) in first.files[gzPath := good];
  }

  /** `extract_gz` as intended: a failed decompression leaves no file behind. */
  function ExtractGz(files: map<string, Bytes>, gzPath: string, gunzip: Bytes -> Inflation): (r: Step)
    ensures r.result.Failure? ==> r.files == files
    ensures r.result.Success? ==> r.result.value == RawPath(gzPath)
    ensures r.result.Success? ==> r.files.Keys == files.Keys + {RawPath(gzPath)}
  {
    var raw := RawPath(gzPath);
    if raw in files then Step(files, Success(raw))
    else if gzPath !in files then Step(files, Failure(FileNotFound(gzPath)))
    else match gunzip(files[gzPath])
      case Inflated(data) => Step(files[raw := data], Success(raw))
      case Corrupt(_) => Step(files, Failure(DecompressionError(gzPath)))
  }

  /** An extraction either finds the raw file present, or stores exactly the
      complete decompressed content of the archive on disk. */
  lemma ExtractGzSound(files: map<string, Bytes>, gzPath: string, gunzip: Bytes -> Inflation)
    ensures var r := ExtractGz(files, gzPath, gunzip);
            var raw := RawPath(gzPath);
            (forall p :: p in files ==> p in r.files && r.files[p] == files[p])
            && (r.result.Success? && raw !in files ==> gzPath in files && gunzip(files[gzPath]) == Inflated(r.files[raw]))
  {
  }

  lemma ExtractGzIdempotent(files: map<string, Bytes>, gzPath: string, gunzip: Bytes -> Inflation, gunzip2: Bytes -> Inflation)
    requires ExtractGz(files, gzPath, gunzip).result.Success?
    ensures var first := ExtractGz(files, gzPath, gunzip);
            ExtractGz(first.files, gzPath, gunzip2) == first
  {
  }

  // ---------------------------------------------------------------------------
  // The parsed XML tree, and the record extracted from one Article
  // ---------------------------------------------------------------------------

  /** `PubDate`: for each of Year, Month and Day, the `findtext` of that child;
      None when the child is absent (a present child without text reads as ""). */
  datatype PubDateElem = PubDateElem(year: Option<string>, month: Option<string>, day: Option<string>)

  /** `Author`: the `findtext` of ForeName and LastName. */
  datatype AuthorElem = AuthorElem(foreName: Option<string>, lastName: Option<string>)

  /** `ArticleTitle`: its `.text`, None when the element has no text. */
  datatype TitleElem = TitleElem(text: Option<string>)

  /** One `Article` node: the `.text` of every AbstractText below it in document
      order, the PubDate under Journal/JournalIssue if there is one, the
      ArticleTitle child if there is one, and every Author below it. */
  datatype ArticleElem = ArticleElem(
    abstractTexts: seq<Option<string>>,
    pubDate: Option<PubDateElem>,
    title: Option<TitleElem>,
    authors: seq<AuthorElem>)

  /** The dict appended to `articles`. */
  datatype ArticleRecord = ArticleRecord(title: string, authors: seq<string>, abstractText: string, pubDate: string)

  /** `[a.text.strip() for a in abstract_elems if a.text]` */
  function AbstractPieces(texts: seq<Option<string>>): (r: seq<string>)
    ensures |r| <= |texts|
    ensures forall k :: 0 <= k < |r| ==> IsStripped(r[k])
    decreases |texts|
  {
    if texts == [] then []
    else (if texts[0].Some? && texts[0].value != "" then [Strip(texts[0].value)] else [])
         + AbstractPieces(texts[1..])
  }

  function Abstract(texts: seq<Option<string>>): string {
    Join(" ", AbstractPieces(texts))
  }

  /** The texts that contribute a piece: present and non-empty. */
  function Contributing(texts: seq<Option<string>>): (r: seq<string>)
    decreases |texts|
  {
    if texts == [] then []
    else (if texts[0].Some? && texts[0].value != "" then [texts[0].value] else [])
         + Contributing(texts[1..])
  }

  lemma {:induction false} PiecesAreStrippedContributions(texts: seq<Option<string>>)
    ensures |AbstractPieces(texts)| == |Contributing(texts)|
    ensures forall k :: 0 <= k < |Contributing(texts)| ==>
              AbstractPieces(texts)[k] == Strip(Contributing(texts)[k])
    decreases |texts|
  {
    if texts != [] { PiecesAreStrippedContributions(texts[1..]); }
  }

  /** The test `if a.text`: a text that is present and non-empty. */
  function HasText(): Option<string> -> bool {
    (t: Option<string>) => t.Some? && t.value != ""
  }

  /** The contributions are the values of the AbstractTexts that pass the test, in order. */
  lemma {:induction false} ContributingFilter(texts: seq<Option<string>>)
    ensures |Contributing(texts)| == |Filter(HasText(), texts)|
    ensures forall k :: 0 <= k < |Contributing(texts)| ==> Filter(HasText(), texts)[k] == Some(Contributing(texts)[k])
    decreases |texts|
  {
    if texts != [] {
      ContributingFilter(texts[1..]);
      FilterAppend(HasText(), [texts[0]], texts[1..]);
      assert [texts[0]] + texts[1..] == texts;
      assert [texts[0]][..0] == [];
    }
  }

  /** The pieces in document order: piece `k` is the stripped text of the
      AbstractText at position `pos[k]`, which has a non-empty text; the
      positions increase, and every AbstractText with a non-empty text is among them. */
  lemma PiecesInDocumentOrder(texts: seq<Option<string>>) returns (pos: seq<nat>)
    ensures |pos| == |AbstractPieces(texts)| && StrictlyIncreasing(pos)
    ensures forall k :: 0 <= k < |pos| ==>
              pos[k] < |texts| && texts[pos[k]].Some? && texts[pos[k]].value != ""
              && AbstractPieces(texts)[k] == Strip(texts[pos[k]].value)
    ensures forall i :: 0 <= i < |texts| && texts[i].Some? && texts[i].value != "" ==> i in pos
  {
    pos := FilterInOrder(HasText(), texts);
    FilterKeeps(HasText(), texts);
    ContributingFilter(texts);
    PiecesAreStrippedContributions(texts);
  }

  /** An article is skipped for its abstract exactly when no AbstractText has
      text, or exactly one has and that text is all whitespace. */
  lemma AbstractEmptyIff(texts: seq<Option<string>>)
    ensures Abstract(texts) == "" <==>
      (Contributing(texts) == [] || (|Contributing(texts)| == 1 && AllSpace(Contributing(texts)[0])))
  {
    PiecesAreStrippedContributions(texts);
    JoinSpaceEmpty(AbstractPieces(texts));
    var pieces := AbstractPieces(texts);
    assert |pieces| == 1 ==> (pieces == [""] <==> pieces[0] == "");
  }

  /** One whitespace-only AbstractText makes the article skipped; two of them
      join to a single blank, which is kept. */
  lemma BlankAbstracts()
    ensures Abstract([Some(" ")]) == ""
    ensures Abstract([Some(" "), Some(" ")]) == " "
  {
    assert Strip(" ") == "";
    assert AbstractPieces([Some(" ")]) == [""];
    assert [Some(" "), Some(" ")][1..] == [Some(" ")];
    assert AbstractPieces([Some(" "), Some(" ")]) == ["", ""];
  }

  function Text(t: Option<string>): string {
    t.GetOr("")
  }

  /** `'-'.join(pubdate_parts)`: the year, then the month if non-empty, then the
      day if non-empty, every part stripped; all parts are "" without PubDate. */
  function PubDateString(pd: Option<PubDateElem>): string {
    var year := if pd.Some? then Strip(Text(pd.value.year)) else "";
    var month := if pd.Some? then Strip(Text(pd.value.month)) else "";
    var day := if pd.Some? then Strip(Text(pd.value.day)) else "";
    Join("-", [year] + (if month != "" then [month] else []) + (if day != "" then [day] else []))
  }

  /** The parts of a date as the source strips them. */
  function Part(pd: Option<PubDateElem>, which: nat): string
    requires which < 3
  {
    if pd.None? then ""
    else Strip(Text(if which == 0 then pd.value.year else if which == 1 then pd.value.month else pd.value.day))
  }

  /** The optional `-part` the join contributes for a month or a day. */
  function DashPart(x: string): string {
    if x != "" then "-" + x else ""
  }

  /** A '-'-join of the year and the non-empty later parts. */
  lemma {:induction false} DashJoin(y: string, m: string, d: string)
    ensures Join("-", [y] + (if m != "" then [m] else []) + (if d != "" then [d] else []))
            == y + DashPart(m) + DashPart(d)
  {
    var parts := [y] + (if m != "" then [m] else []) + (if d != "" then [d] else []);
    if m != "" && d != "" {
      assert parts == [y, m, d];
      JoinThree("-", y, m, d);
      assert y + "-" + (m + "-" + d) == y + DashPart(m) + DashPart(d);
    } else if m != "" {
      assert parts == [y, m];
      JoinTwo("-", y, m);
    } else if d != "" {
      assert parts == [y, d];
      JoinTwo("-", y, d);
    } else {
      assert parts == [y];
    }
  }

  /** Gluing stripped parts with '-' gives a string with no surrounding whitespace. */
  lemma DashedStripped(y: string, m: string, d: string)
    requires IsStripped(y) && IsStripped(m) && IsStripped(d)
    ensures IsStripped(y + DashPart(m) + DashPart(d))
  {
    var s := y + DashPart(m) + DashPart(d);
    if s != [] {
      assert s[0] == if y != "" then y[0] else '-';
      assert s[|s| - 1] == if d != "" then d[|d| - 1] else if m != "" then m[|m| - 1] else y[|y| - 1];
    }
  }

  /** The composed date is `year[-month][-day]` (the day is appended even when
      the month is empty); without a PubDate element it is "". */
  lemma PubDateShape(pd: Option<PubDateElem>)
    ensures PubDateString(pd) == Part(pd, 0) + DashPart(Part(pd, 1)) + DashPart(Part(pd, 2))
    ensures pd.None? ==> PubDateString(pd) == ""
  {
    DashJoin(Part(pd, 0), Part(pd, 1), Part(pd, 2));
  }

  /** The composed date has no surrounding whitespace, so the `strip()` before
      parsing is the identity. */
  lemma PubDateStripped(pd: Option<PubDateElem>)
    ensures Strip(PubDateString(pd)) == PubDateString(pd)
  {
    PubDateShape(pd);
    DashedStripped(Part(pd, 0), Part(pd, 1), Part(pd, 2));
  }

  /** One entry of `author_list`, None when both names are empty. */
  function AuthorName(a: AuthorElem): Option<string> {
    var fore := Strip(Text(a.foreName));
    var last := Strip(Text(a.lastName));
    if fore != "" || last != "" then Some(Strip(fore + " " + last)) else None
  }

  /** An Author has an entry exactly when its fore or last name is not blank;
      the entry is not empty, and it is "Fore Last", or whichever of the two
      names is not blank. */
  lemma AuthorNameShape(a: AuthorElem)
    ensures var fore, last := Strip(Text(a.foreName)), Strip(Text(a.lastName));
            && (AuthorName(a).Some? <==> fore != "" || last != "")
            && (AuthorName(a).Some? ==> AuthorName(a).value != "")
            && (AuthorName(a).Some? ==>
                  AuthorName(a).value == if fore == "" then last else if last == "" then fore else fore + " " + last)
  {
    var fore, last := Strip(Text(a.foreName)), Strip(Text(a.lastName));
    if fore != "" || last != "" {
      NameJoin(fore, last);
    }
  }

  /** `f"{fore} {last}".strip()` for two stripped names, not both empty. */
  lemma NameJoin(fore: string, last: string)
    requires IsStripped(fore) && IsStripped(last) && (fore != "" || last != "")
    ensures Strip(fore + " " + last) == if fore == "" then last else if last == "" then fore else fore + " " + last
  {
    if fore == "" {
      assert fore + " " + last == " " + last;
      StripAroundWord(last);
    } else if last == "" {
      assert fore + " " + last == fore + " ";
      StripAroundWord(fore);
    } else {
      var s := fore + " " + last;
      assert s[0] == fore[0] && s[|s| - 1] == last[|last| - 1];
    }
  }

  /** `author_list`: one entry per named Author, in document order. */
  function AuthorList(authors: seq<AuthorElem>): seq<string>
    decreases |authors|
  {
    if authors == [] then []
    else
      var rest := AuthorList(authors[..|authors| - 1]);
      match AuthorName(authors[|authors| - 1])
      case Some(n) => rest + [n]
      case None => rest
  }

  lemma NonEmptyAppend(xs: seq<string>, x: string)
    requires x != "" && forall k :: 0 <= k < |xs| ==> xs[k] != ""
    ensures forall k :: 0 <= k < |xs + [x]| ==> (xs + [x])[k] != ""
  {
    forall k | 0 <= k < |xs + [x]| ensures (xs + [x])[k] != "" {
      if k < |xs| { assert (xs + [x])[k] == xs[k]; }
    }
  }

  /** Every entry is non-empty, and there are at most as many entries as Authors. */
  lemma {:induction false} AuthorListFacts(authors: seq<AuthorElem>)
    ensures |AuthorList(authors)| <= |authors|
    ensures forall k :: 0 <= k < |AuthorList(authors)| ==> AuthorList(authors)[k] != ""
    decreases |authors|
  {
    if authors != [] {
      var init := authors[..|authors| - 1];
      AuthorListFacts(init);
      var rest := AuthorList(init);
      var name := AuthorName(authors[|authors| - 1]);
      if name.Some? {
        assert name.value != "" by {
          AuthorNameShape(authors[|authors| - 1]);
        }
        assert AuthorList(authors) == rest + [name.value];
        NonEmptyAppend(rest, name.value);
      } else {
        assert AuthorList(authors) == rest;
      }
    }
  }

  /** The inner loop of `parse_articles` that fills `author_list`. */
  method CollectAuthors(authors: seq<AuthorElem>) returns (names: seq<string>)
    ensures names == AuthorList(authors)
  {
    names := [];
    for i := 0 to |authors|
      invariant names == AuthorList(authors[..i])
    {
      assert authors[..i + 1][..i] == authors[..i];
      var fore := Strip(Text(authors[i].foreName));
      var last := Strip(Text(authors[i].lastName));
      if fore != "" || last != "" {
        names := names + [Strip(fore + " " + last)];
      }
    }
    assert authors[..|authors|] == authors;
  }

  /** The article gets past the two `continue`s: its joined abstract is
      non-empty and its stripped date parses. */
  predicate Passes(lib: DateLib, a: ArticleElem) {
    Abstract(a.abstractTexts) != "" && lib.parses(Strip(PubDateString(a.pubDate)))
  }

  /** What one pass of the loop body does with an Article: a record, a skip
      (None), or the AttributeError of reading `.text` of a missing title. */
  function ExtractArticle(lib: DateLib, a: ArticleElem): Result<Option<ArticleRecord>, PyError> {
    var joined := Abstract(a.abstractTexts);
    if joined == "" then Success(None)
    else
      var stripped := Strip(PubDateString(a.pubDate));
      if !lib.parses(stripped) then Success(None)
      else if a.title.None? then Failure(AttributeError)
      else
        var title := if a.title.value.text.None? then "" else Strip(a.title.value.text.value);
        Success(Some(ArticleRecord(title, AuthorList(a.authors), joined, stripped)))
  }

  /** The loop body of `parse_articles` for one Article, with the inner author loop. */
  method ExtractArticleStep(lib: DateLib, a: ArticleElem) returns (r: Result<Option<ArticleRecord>, PyError>)
    ensures r == ExtractArticle(lib, a)
  {
    var joined := Abstract(a.abstractTexts);
    if joined == "" {
      return Success(None);
    }
    var stripped := Strip(PubDateString(a.pubDate));
    if !lib.parses(stripped) {
      return Success(None);
    }
    if a.title.None? {
      return Failure(AttributeError);
    }
    var title := if a.title.value.text.None? then "" else Strip(a.title.value.text.value);
    var authors := CollectAuthors(a.authors);
    r := Success(Some(ArticleRecord(title, authors, joined, stripped)));
  }

  /** An Article is skipped exactly when it does not get past the two `continue`s. */
  lemma ArticleSkipped(lib: DateLib, a: ArticleElem)
    ensures ExtractArticle(lib, a) == Success(None) <==> !Passes(lib, a)
  {
  }

  /** The only exception is the AttributeError of an Article that gets past the
      checks but has no ArticleTitle. */
  lemma ArticleRaises(lib: DateLib, a: ArticleElem)
    ensures ExtractArticle(lib, a).Failure? <==> Passes(lib, a) && a.title.None?
    ensures ExtractArticle(lib, a).Failure? ==> ExtractArticle(lib, a).error == AttributeError
  {
  }

  /** An emitted record holds the joined abstract, which is not empty, the
      composed date, which the parser accepts, and the author list; its title is
      "" for a title element without text and the stripped text otherwise. */
  lemma ArticleEmitted(lib: DateLib, a: ArticleElem)
    requires ExtractArticle(lib, a).Success? && ExtractArticle(lib, a).value.Some?
    ensures var rec := ExtractArticle(lib, a).value.value;
            && Passes(lib, a) && a.title.Some?
            && rec.abstractText == Abstract(a.abstractTexts) != ""
            && rec.pubDate == PubDateString(a.pubDate) && lib.parses(rec.pubDate)
            && rec.authors == AuthorList(a.authors)
            && rec.title == if a.title.value.text.None? then "" else Strip(a.title.value.text.value)
  {
    PubDateStripped(a.pubDate);
  }

  // ---------------------------------------------------------------------------
  // parse_articles
  // ---------------------------------------------------------------------------

  /** The outcome of each pass over the Article nodes, in document order. */
  function Outcomes(lib: DateLib, arts: seq<ArticleElem>): seq<Result<Option<ArticleRecord>, PyError>> {
    seq(|arts|, i requires 0 <= i < |arts| => ExtractArticle(lib, arts[i]))
  }

  /** `parse_articles` over the Article nodes in document order: the records of
      the emitting articles, or the first exception. */
  function ParsedArticles(lib: DateLib, arts: seq<ArticleElem>): Result<seq<ArticleRecord>, PyError> {
    Gather(Outcomes(lib, arts))
  }

  /** `parse_articles` (the loop over `root.findall('.//Article')`). */
  method ParseArticles(lib: DateLib, arts: seq<ArticleElem>) returns (r: Result<seq<ArticleRecord>, PyError>)
    ensures r == ParsedArticles(lib, arts)
  {
    ghost var outs := Outcomes(lib, arts);
    var articles: seq<ArticleRecord> := [];
    for i := 0 to |arts|
      invariant Gather(outs[..i]) == Success(articles)
    {
      assert outs[..i + 1][..i] == outs[..i];
      assert outs[i] == ExtractArticle(lib, arts[i]);
      var outcome := ExtractArticleStep(lib, arts[i]);
      match outcome
      case Success(None) =>
      case Success(Some(rec)) =>
        articles := articles + [rec];
      case Failure(e) =>
        r := Failure(e);
        GatherFailsAt(outs, i);
        return;
    }
    assert outs[..|arts|] == outs;
    r := Success(articles);
  }

  /** The run raises exactly when some Article that passes the abstract and date
      checks has no ArticleTitle element, and the exception is an AttributeError. */
  lemma ParsedFailsIff(lib: DateLib, arts: seq<ArticleElem>)
    ensures ParsedArticles(lib, arts).Failure? <==>
              exists i :: 0 <= i < |arts| && Passes(lib, arts[i]) && arts[i].title.None?
    ensures ParsedArticles(lib, arts).Failure? ==> ParsedArticles(lib, arts).error == AttributeError
  {
    var outs := Outcomes(lib, arts);
    GatherFailsIff(outs);
    forall i | 0 <= i < |arts|
      ensures outs[i].Failure? <==> Passes(lib, arts[i]) && arts[i].title.None?
      ensures outs[i].Failure? ==> outs[i].error == AttributeError
    {
      ArticleRaises(lib, arts[i]);
    }
  }

  /** The records are those of the emitting Articles, in document order: record
      `k` comes from Article `pos[k]`, the positions increase, and every
      emitting Article is among them. */
  lemma ParsedInDocumentOrder(lib: DateLib, arts: seq<ArticleElem>) returns (pos: seq<nat>)
    requires ParsedArticles(lib, arts).Success?
    ensures var recs := ParsedArticles(lib, arts).value;
            && |pos| == |recs| <= |arts| && StrictlyIncreasing(pos)
            && (forall k :: 0 <= k < |pos| ==> pos[k] < |arts| && ExtractArticle(lib, arts[pos[k]]) == Success(Some(recs[k])))
            && (forall i :: 0 <= i < |arts| && ExtractArticle(lib, arts[i]).Success? && ExtractArticle(lib, arts[i]).value.Some? ==> i in pos)
  {
    var outs := Outcomes(lib, arts);
    pos := GatherInOrder(outs);
    forall i | 0 <= i < |arts| ensures ExtractArticle(lib, arts[i]) == outs[i] { }
  }

  /** Every emitted record has a non-empty abstract and a date the parser
      accepts, which is already stripped, and only non-empty author names; there
      are at most as many records as Article nodes. */
  lemma ParsedRecordsValid(lib: DateLib, arts: seq<ArticleElem>)
    requires ParsedArticles(lib, arts).Success?
    ensures |ParsedArticles(lib, arts).value| <= |arts|
    ensures forall k :: 0 <= k < |ParsedArticles(lib, arts).value| ==>
              var rec := ParsedArticles(lib, arts).value[k];
              rec.abstractText != "" && lib.parses(rec.pubDate) && Strip(rec.pubDate) == rec.pubDate
              && forall j :: 0 <= j < |rec.authors| ==> rec.authors[j] != ""
  {
    var recs := ParsedArticles(lib, arts).value;
    var pos := ParsedInDocumentOrder(lib, arts);
    forall k | 0 <= k < |recs|
      ensures recs[k].abstractText != "" && lib.parses(recs[k].pubDate) && Strip(recs[k].pubDate) == recs[k].pubDate
      ensures forall j :: 0 <= j < |recs[k].authors| ==> recs[k].authors[j] != ""
    {
      var a := arts[pos[k]];
      ArticleEmitted(lib, a);
      PubDateStripped(a.pubDate);
      AuthorListFacts(a.authors);
    }
  }

  // ---------------------------------------------------------------------------
  // process_file and main
  // ---------------------------------------------------------------------------

  /** The JSON object `json.dump` writes for a record. */
  function RecordJson(rec: ArticleRecord): Json {
    JObj(map[
      "ArticleTitle" := JStr(rec.title),
      "AuthorList" := JArr(seq(|rec.authors|, k requires 0 <= k < |rec.authors| => JStr(rec.authors[k]))),
      "Abstract" := JStr(rec.abstractText),
      "PubDate" := JStr(rec.pubDate)])
  }

  /** The services `process_file` calls: the network, gzip, the XML parser
      (None for a ParseError) and pandas' date parser. */
  datatype Env = Env(
    fetch: string -> Transfer,
    gunzip: Bytes -> Inflation,
    parseXml: Bytes -> Option<seq<ArticleElem>>,
    lib: DateLib)

  /** The disk: downloaded and extracted files, and the JSON files written. */
  datatype Disk = Disk(files: map<string, Bytes>, outputs: map<string, seq<Json>>)

  /** The JSON array `json.dump` writes for a list of records. */
  function RecordsJson(recs: seq<ArticleRecord>): (r: seq<Json>)
    ensures |r| == |recs|
  {
    seq(|recs|, k requires 0 <= k < |recs| => RecordJson(recs[k]))
  }

  /** `download_file` then `extract_gz`: the raw file of an archive name, or the
      exception of either step. Files stored before are kept. */
  function Fetch(env: Env, files: map<string, Bytes>, filename: string): (r: Step)
    ensures r.result.Success? ==> r.result.value == RawPath(DownloadPath(filename)) && r.result.value in r.files
    ensures files.Keys <= r.files.Keys && forall p :: p in files ==> r.files[p] == files[p]
  {
    var dl := DownloadFile(files, filename, env.fetch);
    DownloadFileSound(files, filename, env.fetch);
    if dl.result.Failure? then dl
    else
      var ex := ExtractGz(dl.files, dl.result.value, env.gunzip);
      ExtractGzSound(dl.files, dl.result.value, env.gunzip);
      ex
  }

  /** `download_file` then `extract_gz` as written, leaving the partial file of a
      broken transfer or a corrupt archive on disk. */
  function FetchAsWritten(env: Env, files: map<string, Bytes>, filename: string): (r: Step)
    ensures r.result.Success? ==> r.result.value == RawPath(DownloadPath(filename)) && r.result.value in r.files
  {
    var dl := DownloadFileAsWritten(files, filename, env.fetch);
    if dl.result.Failure? then dl
    else ExtractGzAsWritten(dl.files, dl.result.value, env.gunzip)
  }

  /** The corrected steps raise the same exceptions and return the same paths as
      the steps as written, and leave the same disk after a success. After a
      failure they differ only in the partial file the failed step leaves at
      the download or the raw path. */
  lemma FetchDiffersOnlyByPartialFile(env: Env, files: map<string, Bytes>, filename: string)
    ensures var w := FetchAsWritten(env, files, filename);
            var c := Fetch(env, files, filename);
            && w.result == c.result
            && (c.result.Success? ==> w.files == c.files)
            && (forall p :: p in c.files ==> p in w.files && w.files[p] == c.files[p])
            && w.files.Keys <= c.files.Keys + {DownloadPath(filename), RawPath(DownloadPath(filename))}
  {
    var dl := DownloadFile(files, filename, env.fetch);
    var dlw := DownloadFileAsWritten(files, filename, env.fetch);
    if dl.result.Failure? {
      assert dlw.result == dl.result && dl.files == files;
      assert dlw.files == files || (DownloadPath(filename) !in files && dlw.files.Keys == files.Keys + {DownloadPath(filename)});
    } else {
      assert dlw == dl;
      var raw := RawPath(DownloadPath(filename));
      var ex := ExtractGz(dl.files, dl.result.value, env.gunzip);
      var exw := ExtractGzAsWritten(dl.files, dl.result.value, env.gunzip);
      assert exw.result == ex.result;
      if ex.result.Failure? {
        assert ex.files == dl.files;
        assert exw.files == dl.files || (raw !in dl.files && exw.files.Keys == dl.files.Keys + {raw});
      }
    }
  }

  /** `process_file`: download, extract, parse, and write the records as a JSON
      array to the output path of the archive. A failure writes no output but
      keeps what the download and extraction stored; a success writes, at the
      output path and nowhere else, one object per record that the raw file on
      disk yields. Files stored before are never changed. */
  method ProcessFile(env: Env, disk: Disk, filename: string) returns (next: Disk, result: Result<string, PyError>)
    ensures result.Success? ==> result.value == OutputPath(RawPath(DownloadPath(filename)))
    ensures result.Success? ==>
              var raw := RawPath(DownloadPath(filename));
              && raw in next.files && env.parseXml(next.files[raw]).Some?
              && var recs := ParsedArticles(env.lib, env.parseXml(next.files[raw]).value);
                 recs.Success? && next.outputs == disk.outputs[result.value := RecordsJson(recs.value)]
    ensures result.Failure? ==> next.outputs == disk.outputs
    ensures disk.outputs.Keys <= next.outputs.Keys
    ensures result.Success? ==> result.value in next.outputs
    ensures disk.files.Keys <= next.files.Keys && forall p :: p in disk.files ==> next.files[p] == disk.files[p]
  {
    var fetched := Fetch(env, disk.files, filename);
    next := Disk(fetched.files, disk.outputs);
    if fetched.result.Failure? {
      return next, Failure(fetched.result.error);
    }
    var xmlPath := fetched.result.value;
    var tree := env.parseXml(fetched.files[xmlPath]);
    if tree.None? {
      return next, Failure(XmlParseError(xmlPath));
    }
    var articles := ParseArticles(env.lib, tree.value);
    if articles.Failure? {
      return next, Failure(articles.error);
    }
    var out := OutputPath(xmlPath);
    next := Disk(fetched.files, disk.outputs[out := RecordsJson(articles.value)]);
    result := Success(out);
  }

  /** The output file of the `k`-th archive of FILE_NAMES (ArchivePaths). */
  function ArchiveOutput(k: nat): string {
    PROCESSED_DIR + "/" + (Stem(k) + ".json")
  }

  /** The `k`-th archive is processed on `d`: its raw file is on disk and parses,
      and its output file holds one JSON object per record that file yields. */
  predicate HoldsArchive(env: Env, d: Disk, k: nat)
    requires k < 549
  {
    var raw := RawPath(DownloadPath(FileNames()[k]));
    && raw in d.files && env.parseXml(d.files[raw]).Some?
    && var recs := ParsedArticles(env.lib, env.parseXml(d.files[raw]).value);
       && recs.Success?
       && ArchiveOutput(k) in d.outputs && d.outputs[ArchiveOutput(k)] == RecordsJson(recs.value)
  }

  /** Processing another archive keeps a processed one processed: the stored files
      are kept and the other output path is a different one. */
  lemma HoldsArchiveKept(env: Env, d: Disk, d2: Disk, j: nat, k: nat, v: seq<Json>)
    requires j < 549 && k < 549 && j != k && HoldsArchive(env, d, k)
    requires forall p :: p in d.files ==> p in d2.files && d2.files[p] == d.files[p]
    requires d2.outputs == d.outputs[ArchiveOutput(j) := v]
    ensures HoldsArchive(env, d2, k)
  {
    ArchivePaths(j);
    ArchivePaths(k);
    OutputPathsDistinct(j, k);
  }

  /** `main`: `process_file` for every name of FILE_NAMES in order; an exception
      ends the run. After a complete run every archive has its own output file
      holding the records of its raw file; no output and no stored file is lost. */
  method ProcessAll(env: Env, disk: Disk) returns (final: Disk, error: Option<PyError>)
    ensures error.None? ==> forall k :: 0 <= k < 549 ==> HoldsArchive(env, final, k)
    ensures disk.outputs.Keys <= final.outputs.Keys
    ensures disk.files.Keys <= final.files.Keys && forall p :: p in disk.files ==> final.files[p] == disk.files[p]
  {
    final := disk;
    var names := FileNames();
    for i := 0 to |names|
      invariant forall k :: 0 <= k < i ==> HoldsArchive(env, final, k)
      invariant disk.outputs.Keys <= final.outputs.Keys
      invariant disk.files.Keys <= final.files.Keys && forall p :: p in disk.files ==> final.files[p] == disk.files[p]
    {
      ghost var prev := final;
      var result;
      final, result := ProcessFile(env, final, names[i]);
      if result.Failure? {
        error := Some(result.error);
        return;
      }
      ArchivePaths(i);
      assert HoldsArchive(env, final, i);
      forall k | 0 <= k <= i ensures HoldsArchive(env, final, k) {
        if k < i {
          HoldsArchiveKept(env, prev, final, i, k, final.outputs[ArchiveOutput(i)]);
        }
      }
    }
    error := None;
  }
}
