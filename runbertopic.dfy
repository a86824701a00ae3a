/**
 * run_bertopic.py up to the topic model: gathering the records that mention
 * the metatopic, the year partition of the filtered master file with its
 * per-year cache files, a sample of each year, and the documents and
 * timestamps the topic model is fitted on.
 */
module RunBertopic {
  import opened Wrappers
  import opened PyStr
  import opened PyData
  import opened Loops

  const DATA_DIR: string := "data/tokenized/"
  const METATOPIC: string := "cancer"

  // ---------------------------------------------------------------------------
  // load_all_data
  // ---------------------------------------------------------------------------

  /** `METATOPIC in entry['tokens']`. Subscripting anything but a dict with a
      string raises TypeError, a dict without the key raises KeyError, and `in`
      on a value that is no container raises TypeError. */
  function MentionsTopic(entry: Json): Result<bool, PyError> {
    if !entry.JObj? then Failure(TypeError)
    else if "tokens" !in entry.fields then Failure(KeyError("tokens"))
    else match In(METATOPIC, entry.fields["tokens"])
      case None => Failure(TypeError)
      case Some(b) => Success(b)
  }

  /** One step of `[entry for entry in data if METATOPIC in entry['tokens']]`. */
  function TopicOutcome(entry: Json): Result<Option<Json>, PyError> {
    match MentionsTopic(entry)
    case Failure(e) => Failure(e)
    case Success(b) => Success(if b then Some(entry) else None)
  }

  function TopicOutcomes(data: seq<Json>): seq<Result<Option<Json>, PyError>> {
    seq(|data|, i requires 0 <= i < |data| => TopicOutcome(data[i]))
  }

  /** `metatopic_data` for a list, or the exception the comprehension raises. */
  function TopicEntries(data: seq<Json>): Result<seq<Json>, PyError> {
    Gather(TopicOutcomes(data))
  }

  /** What one `.json` name of the listing contributes: the metatopic entries
      of its file when the file holds a list and the filter does not raise;
      None when loading raises, when the content is no list (a warning is
      printed) or when the filter raises (the `except` prints it). */
  function FileTopicEntries(files: map<string, JsonFile>, filename: string): Option<seq<Json>> {
    match LoadJson(files, PathJoin(DATA_DIR, filename))
    case Failure(_) => None
    case Success(data) =>
      if !data.JArr? then None
      else match TopicEntries(data.items)
        case Failure(_) => None
        case Success(kept) => Some(kept)
  }

  /** The names whose pass reaches `file_count += 1`. */
  predicate Counted(files: map<string, JsonFile>, filename: string) {
    EndsWith(filename, ".json") && FileTopicEntries(files, filename).Some?
  }

  function CountedIn(files: map<string, JsonFile>): string -> bool {
    filename => Counted(files, filename)
  }

  /** The names counted by `file_count`, in listing order. */
  function CountedFiles(files: map<string, JsonFile>, listing: seq<string>): seq<string> {
    Filter(CountedIn(files), listing)
  }

  /** What the pass for one name of the listing adds to `all_records`. */
  function Contribution(files: map<string, JsonFile>, filename: string): seq<Json> {
    if Counted(files, filename) then FileTopicEntries(files, filename).value else []
  }

  function ContributionIn(files: map<string, JsonFile>): string -> seq<Json> {
    filename => Contribution(files, filename)
  }

  /** `all_records` after the loop over `listing` (`os.listdir`'s order is the listing's). */
  function TopicRecords(files: map<string, JsonFile>, listing: seq<string>): seq<Json> {
    Concat(ContributionIn(files), listing)
  }

  /** `load_all_data(DATA_DIR)`, with the file counter it reports. */
  method LoadAllData(files: map<string, JsonFile>, listing: seq<string>) returns (records: seq<Json>, fileCount: nat)
    ensures records == TopicRecords(files, listing)
    ensures fileCount == |CountedFiles(files, listing)|
  {
    records, fileCount := [], 0;
    for i := 0 to |listing|
      invariant records == TopicRecords(files, listing[..i])
      invariant fileCount == |CountedFiles(files, listing[..i])|
    {
      assert listing[..i + 1][..i] == listing[..i];
      assert CountedFiles(files, listing[..i + 1]) ==
             CountedFiles(files, listing[..i]) + (if Counted(files, listing[i]) then [listing[i]] else []);
      var filename := listing[i];
      if EndsWith(filename, ".json") {
        var loaded := LoadJson(files, PathJoin(DATA_DIR, filename));
        if loaded.Success? && loaded.value.JArr? {
          var kept := TopicEntries(loaded.value.items);
          if kept.Success? {
            records := records + kept.value;
            fileCount := fileCount + 1;
          }
        }
      }
    }
    assert listing[..|listing|] == listing;
  }

  /** The filter raises exactly when some entry's test raises. */
  lemma TopicEntriesFailsIff(data: seq<Json>)
    ensures TopicEntries(data).Failure? <==> exists i :: 0 <= i < |data| && MentionsTopic(data[i]).Failure?
  {
    var outs := TopicOutcomes(data);
    GatherFailsIff(outs);
    forall i | 0 <= i < |data| ensures outs[i].Failure? <==> MentionsTopic(data[i]).Failure? { }
  }

  /** The kept entries are the entries of the list whose tokens hold the
      metatopic, in list order, and none of them is missing. */
  lemma TopicEntriesInOrder(data: seq<Json>) returns (pos: seq<nat>)
    requires TopicEntries(data).Success?
    ensures var kept := TopicEntries(data).value;
            && |pos| == |kept| <= |data| && StrictlyIncreasing(pos)
            && (forall k :: 0 <= k < |pos| ==> pos[k] < |data| && kept[k] == data[pos[k]]
                                               && MentionsTopic(data[pos[k]]) == Success(true))
            && (forall i :: 0 <= i < |data| && MentionsTopic(data[i]) == Success(true) ==> i in pos)
  {
    var outs := TopicOutcomes(data);
    pos := GatherInOrder(outs);
    forall i | 0 <= i < |data| ensures outs[i] == TopicOutcome(data[i]) { }
  }

  /** The entry is a dict whose tokens hold the metatopic: as a substring of a
      string, as an element of a list, as a key of a dict. */
  predicate HoldsTopic(record: Json) {
    record.JObj? && "tokens" in record.fields && In(METATOPIC, record.fields["tokens"]) == Some(true)
  }

  /** Every gathered record holds the metatopic in its tokens; when the tokens
      are a string, as a substring. */
  lemma TopicRecordsHoldTopic(files: map<string, JsonFile>, listing: seq<string>)
    ensures forall k :: 0 <= k < |TopicRecords(files, listing)| ==>
              var record := TopicRecords(files, listing)[k];
              HoldsTopic(record) && (record.fields["tokens"].JStr? ==> Occurs(METATOPIC, record.fields["tokens"].s))
  {
    var f := ContributionIn(files);
    forall i, k | 0 <= i < |listing| && 0 <= k < |f(listing[i])| ensures HoldsTopic(f(listing[i])[k]) {
      var data := LoadJson(files, PathJoin(DATA_DIR, listing[i])).value;
      var pos := TopicEntriesInOrder(data.items);
      assert MentionsTopic(data.items[pos[k]]) == Success(true);
    }
    ConcatEvery(f, listing, HoldsTopic);
  }

  /** Records are gathered file by file: the records of a listing are those of
      its first part followed by those of the rest. */
  lemma TopicRecordsAppend(files: map<string, JsonFile>, a: seq<string>, b: seq<string>)
    ensures TopicRecords(files, a + b) == TopicRecords(files, a) + TopicRecords(files, b)
  {
    ConcatAppend(ContributionIn(files), a, b);
  }

  /** `file_count` counts, in listing order, exactly the `.json` names whose
      file loads, holds a list and passes the filter without raising. */
  lemma CountedFilesMeaning(files: map<string, JsonFile>, listing: seq<string>) returns (pos: seq<nat>)
    ensures var counted := CountedFiles(files, listing);
            && |pos| == |counted| <= |listing| && StrictlyIncreasing(pos)
            && (forall k :: 0 <= k < |pos| ==> pos[k] < |listing| && counted[k] == listing[pos[k]])
            && (forall k :: 0 <= k < |counted| ==>
                  var path := PathJoin(DATA_DIR, counted[k]);
                  && EndsWith(counted[k], ".json")
                  && LoadJson(files, path).Success? && LoadJson(files, path).value.JArr?
                  && TopicEntries(LoadJson(files, path).value.items).Success?)
            && (forall i :: 0 <= i < |listing| && Counted(files, listing[i]) ==> i in pos)
  {
    pos := FilterInOrder(CountedIn(files), listing);
    FilterKeeps(CountedIn(files), listing);
  }

  // ---------------------------------------------------------------------------
  // parse_pubdate and prepare_corpus_and_timestamps
  // ---------------------------------------------------------------------------

  /** A timestamp handed to the topic model: a year, or the NaN that is NaT's year. */
  datatype Stamp = Year(year: int) | NaN

  /** `parse_pubdate(x)`: never raises; None exactly when `pd.to_datetime(x)` raises. */
  function ParsePubdate(lib: DateLib, x: Json): (r: Option<Stamp>)
    ensures r.None? <==> lib.yearOf(x).Raises?
    ensures lib.yearOf(x).InYear? ==> r == Some(Year(lib.yearOf(x).year))
  {
    match lib.yearOf(x)
    case Raises => None
    case NaT => Some(NaN)
    case InYear(y) => Some(Year(y))
  }

  /** `tokens and isinstance(tokens, str) and tokens.strip()` is truthy. */
  predicate UsableTokens(tokens: Json) {
    tokens.JStr? && Strip(tokens.s) != ""
  }

  /** One pass of the loop: the doc and timestamp it appends, nothing, or the
      AttributeError of `rec.get` on a record that is not a dict. */
  function PrepareOutcome(lib: DateLib, rec: Json): Result<Option<(string, Stamp)>, PyError> {
    if !rec.JObj? then Failure(AttributeError)
    else
      var tokens := Get(rec.fields, "tokens", JStr(""));
      var dt := ParsePubdate(lib, Get(rec.fields, "PubDate", JStr("")));
      if UsableTokens(tokens) && dt.Some? then Success(Some((Strip(tokens.s), dt.value))) else Success(None)
  }

  function PrepareOutcomes(lib: DateLib, records: seq<Json>): seq<Result<Option<(string, Stamp)>, PyError>> {
    seq(|records|, i requires 0 <= i < |records| => PrepareOutcome(lib, records[i]))
  }

  /** The pair of lists the script returns. */
  datatype Corpus = Corpus(docs: seq<string>, timestamps: seq<Stamp>)

  function Unzip(pairs: seq<(string, Stamp)>): Corpus {
    Corpus(seq(|pairs|, k requires 0 <= k < |pairs| => pairs[k].0),
           seq(|pairs|, k requires 0 <= k < |pairs| => pairs[k].1))
  }

  lemma UnzipAppend(pairs: seq<(string, Stamp)>, p: (string, Stamp))
    ensures Unzip(pairs + [p]) == Corpus(Unzip(pairs).docs + [p.0], Unzip(pairs).timestamps + [p.1])
  {
    assert Unzip(pairs + [p]).docs == Unzip(pairs).docs + [p.0];
    assert Unzip(pairs + [p]).timestamps == Unzip(pairs).timestamps + [p.1];
  }

  /** `prepare_corpus_and_timestamps(records)`, or the exception. */
  function Prepared(lib: DateLib, records: seq<Json>): Result<Corpus, PyError> {
    match Gather(PrepareOutcomes(lib, records))
    case Failure(e) => Failure(e)
    case Success(pairs) => Success(Unzip(pairs))
  }

  /** The loop `for rec in records`, appending to both lists together. */
  method PrepareCorpus(lib: DateLib, records: seq<Json>) returns (r: Result<Corpus, PyError>)
    ensures r == Prepared(lib, records)
  {
    ghost var outs := PrepareOutcomes(lib, records);
    ghost var pairs: seq<(string, Stamp)> := [];
    var docs: seq<string> := [];
    var timestamps: seq<Stamp> := [];
    for i := 0 to |records|
      invariant Gather(outs[..i]) == Success(pairs)
      invariant Corpus(docs, timestamps) == Unzip(pairs)
    {
      assert outs[..i + 1][..i] == outs[..i];
      assert outs[i] == PrepareOutcome(lib, records[i]);
      var rec := records[i];
      if !rec.JObj? {
        r := Failure(AttributeError);
        GatherFailsAt(outs, i);
        return;
      }
      var tokens := Get(rec.fields, "tokens", JStr(""));
      var pubdate := Get(rec.fields, "PubDate", JStr(""));
      if tokens.JStr? && tokens.s != "" && Strip(tokens.s) != "" {
        var dt := ParsePubdate(lib, pubdate);
        if dt.Some? {
          UnzipAppend(pairs, (Strip(tokens.s), dt.value));
          pairs := pairs + [(Strip(tokens.s), dt.value)];
          docs := docs + [Strip(tokens.s)];
          timestamps := timestamps + [dt.value];
        }
      }
    }
    assert outs[..|records|] == outs;
    r := Success(Corpus(docs, timestamps));
  }

  /** The loop raises exactly when some record is not a dict, and then with an AttributeError. */
  lemma PreparedFailsIff(lib: DateLib, records: seq<Json>)
    ensures Prepared(lib, records).Failure? <==> exists i :: 0 <= i < |records| && !records[i].JObj?
    ensures Prepared(lib, records).Failure? ==> Prepared(lib, records).error == AttributeError
  {
    var outs := PrepareOutcomes(lib, records);
    GatherFailsIff(outs);
    forall i | 0 <= i < |records|
      ensures outs[i].Failure? <==> !records[i].JObj?
      ensures outs[i].Failure? ==> outs[i].error == AttributeError
    {
    }
  }

  /** The two lists have one entry per kept record, in record order: doc `k`
      is the stripped, non-blank tokens string of record `pos[k]` and timestamp
      `k` its parsed PubDate; every dict record with such tokens and a date
      that parses is kept. */
  lemma PreparedInOrder(lib: DateLib, records: seq<Json>) returns (pos: seq<nat>)
    requires Prepared(lib, records).Success?
    ensures var c := Prepared(lib, records).value;
            && |c.docs| == |c.timestamps| == |pos| <= |records| && StrictlyIncreasing(pos)
            && (forall k :: 0 <= k < |pos| ==>
                  pos[k] < |records| && records[pos[k]].JObj?
                  && var tokens := Get(records[pos[k]].fields, "tokens", JStr(""));
                     var dt := ParsePubdate(lib, Get(records[pos[k]].fields, "PubDate", JStr("")));
                     && UsableTokens(tokens) && dt.Some?
                     && c.docs[k] == Strip(tokens.s) && c.docs[k] != "" && IsStripped(c.docs[k])
                     && c.timestamps[k] == dt.value)
            && (forall i :: (0 <= i < |records| && records[i].JObj?
                             && UsableTokens(Get(records[i].fields, "tokens", JStr("")))
                             && ParsePubdate(lib, Get(records[i].fields, "PubDate", JStr(""))).Some?) ==> i in pos)
  {
    var outs := PrepareOutcomes(lib, records);
    pos := GatherInOrder(outs);
    forall i | 0 <= i < |records| ensures outs[i] == PrepareOutcome(lib, records[i]) { }
  }

  // ---------------------------------------------------------------------------
  // random.sample: distinct positions chosen by the random stream
  // ---------------------------------------------------------------------------

  predicate Distinct(xs: seq<nat>) {
    forall a, b :: 0 <= a < b < |xs| ==> xs[a] != xs[b]
  }

  /** The positions `0 .. n - 1` of a population of `n`. */
  function Positions(n: nat): (r: seq<nat>)
    ensures |r| == n && Distinct(r)
    ensures forall i :: 0 <= i < n ==> r[i] == i
  {
    seq(n, i requires 0 <= i < n => i)
  }

  /** A partial Fisher-Yates draw of `k` positions from `pool`: draw `t` of the
      random stream picks one of the positions still in the pool, which then
      leaves it (its place is taken by the pool's last position). */
  function Pick(pool: seq<nat>, k: nat, draw: nat -> nat, t: nat): (r: seq<nat>)
    requires k <= |pool|
    ensures |r| == k
    ensures forall a :: 0 <= a < k ==> r[a] in pool
    decreases k
  {
    if k == 0 then []
    else
      var j := draw(t) % |pool|;
      var last := |pool| - 1;
      var rest := pool[j := pool[last]][..last];
      assert forall x :: x in rest ==> x in pool;
      [pool[j]] + Pick(rest, k - 1, draw, t + 1)
  }

  /** Drawing from a pool of distinct positions gives distinct positions. */
  lemma {:induction false} PickDistinct(pool: seq<nat>, k: nat, draw: nat -> nat, t: nat)
    requires k <= |pool| && Distinct(pool)
    ensures Distinct(Pick(pool, k, draw, t))
    decreases k
  {
    if k > 0 {
      var j := draw(t) % |pool|;
      var last := |pool| - 1;
      var rest := pool[j := pool[last]][..last];
      assert Distinct(rest) by {
        forall a, b | 0 <= a < b < |rest| ensures rest[a] != rest[b] {
          if b == j { assert rest[b] == pool[last]; }
          if a == j { assert rest[a] == pool[last]; }
        }
      }
      assert pool[j] !in rest by {
        forall a | 0 <= a < |rest| ensures rest[a] != pool[j] {
          if a == j { assert rest[a] == pool[last]; }
        }
      }
      PickDistinct(rest, k - 1, draw, t + 1);
      var r := Pick(pool, k, draw, t);
      assert r == [pool[j]] + Pick(rest, k - 1, draw, t + 1);
      forall a, b | 0 <= a < b < |r| ensures r[a] != r[b] {
        if a == 0 { assert r[b] in rest; }
      }
    }
  }

  /** `random.sample(population, k)` with the draws of `draw`: k elements at
      the positions a partial Fisher-Yates draw picks, or a ValueError when the
      population is smaller than the sample. */
  function Sample(population: seq<Json>, k: nat, draw: nat -> nat): (r: Result<seq<Json>, PyError>)
    ensures r.Failure? <==> k > |population|
    ensures r.Failure? ==> r.error == SampleLargerThanPopulation
    ensures r.Success? ==> |r.value| == k
  {
    if k > |population| then Failure(SampleLargerThanPopulation)
    else
      var picked := Pick(Positions(|population|), k, draw, 0);
      Success(seq(k, a requires 0 <= a < k => population[picked[a]]))
  }

  /** A sample is drawn without replacement: element `a` is the element at
      position `pos[a]` of the population, and no position is drawn twice. */
  lemma SamplePositions(population: seq<Json>, k: nat, draw: nat -> nat) returns (pos: seq<nat>)
    requires k <= |population|
    ensures |pos| == k && Distinct(pos)
    ensures forall a :: 0 <= a < k ==> pos[a] < |population| && Sample(population, k, draw).value[a] == population[pos[a]]
  {
    pos := Pick(Positions(|population|), k, draw, 0);
    PickDistinct(Positions(|population|), k, draw, 0);
  }

  /** What `random.sample` takes from a loaded JSON value: a list's elements, a
      string's characters; any other value is no sequence (TypeError). */
  function Population(v: Json): Option<seq<Json>> {
    match v
    case JArr(items) => Some(items)
    case JStr(s) => Some(seq(|s|, i requires 0 <= i < |s| => JStr([s[i]])))
    case _ => None
  }

  // ---------------------------------------------------------------------------
  // The year loop of main
  // ---------------------------------------------------------------------------

  const FIRST_YEAR: nat := 2005
  const YEARS: nat := 21                       // range(2005, 2026)
  const SAMPLES_PER_YEAR: nat := 10000
  const SOURCE_FILE: string := "data/master_filtered_2005.json"

  /** `f"data/master_{year}.json"`: the cache file of one year. */
  function MasterFile(year: nat): string {
    "data/master_" + Decimal(year) + ".json"
  }

  /** Distinct years have distinct cache files, and none of them is the source file. */
  lemma MasterFileDistinct(y: nat, z: nat)
    ensures MasterFile(y) == MasterFile(z) ==> y == z
    ensures MasterFile(y) != SOURCE_FILE
  {
    var m := MasterFile(y);
    DecimalRoundTrip(y);
    assert m[12] == Decimal(y)[0];
    assert SOURCE_FILE[12] == 'f';
    if m == MasterFile(z) {
      assert Decimal(y) == m[12..|m| - 5];
      assert Decimal(z) == MasterFile(z)[12..|m| - 5];
      DecimalInjective(y, z);
    }
  }

  /** One step of `[record for record in records if pd.to_datetime(record['PubDate']).year == year]`:
      `record['PubDate']` raises TypeError on anything but a dict and KeyError
      on a dict without the key; a NaT year equals no year. */
  function YearOutcome(lib: DateLib, record: Json, year: nat): Result<Option<Json>, PyError> {
    if !record.JObj? then Failure(TypeError)
    else if "PubDate" !in record.fields then Failure(KeyError("PubDate"))
    else match lib.yearOf(record.fields["PubDate"])
      case Raises => Failure(DateParseError)
      case NaT => Success(None)
      case InYear(y) => Success(if y == year then Some(record) else None)
  }

  function YearOutcomes(lib: DateLib, items: seq<Json>, year: nat): seq<Result<Option<Json>, PyError>> {
    seq(|items|, i requires 0 <= i < |items| => YearOutcome(lib, items[i], year))
  }

  /** The records of one year in the loaded source value, or the exception.
      Iterating a dict gives its keys and a string its characters, both
      strings that `['PubDate']` refuses with a TypeError; any other value is
      not iterable. */
  function YearRecords(lib: DateLib, records: Json, year: nat): Result<seq<Json>, PyError> {
    match records
    case JArr(items) => Gather(YearOutcomes(lib, items, year))
    case JObj(fields) => if fields == map[] then Success([]) else Failure(TypeError)
    case JStr(s) => if s == "" then Success([]) else Failure(TypeError)
    case _ => Failure(TypeError)
  }

  /** The dict records whose PubDate falls in `year`. */
  predicate InYearOf(lib: DateLib, record: Json, year: nat) {
    record.JObj? && "PubDate" in record.fields && lib.yearOf(record.fields["PubDate"]) == InYear(year)
  }

  /** The partition of a list for a year is exactly its records whose PubDate
      falls in that year, in list order. */
  lemma YearRecordsExact(lib: DateLib, items: seq<Json>, year: nat) returns (pos: seq<nat>)
    requires YearRecords(lib, JArr(items), year).Success?
    ensures var part := YearRecords(lib, JArr(items), year).value;
            && |pos| == |part| <= |items| && StrictlyIncreasing(pos)
            && (forall k :: 0 <= k < |pos| ==> pos[k] < |items| && part[k] == items[pos[k]] && InYearOf(lib, part[k], year))
            && (forall i :: 0 <= i < |items| && InYearOf(lib, items[i], year) ==> i in pos)
  {
    var outs := YearOutcomes(lib, items, year);
    pos := GatherInOrder(outs);
    forall i | 0 <= i < |items| ensures outs[i] == YearOutcome(lib, items[i], year) { }
  }

  /** The partition of a list raises exactly when some record is no dict, has no
      PubDate, or has one that pandas refuses. */
  lemma YearRecordsFailsIff(lib: DateLib, items: seq<Json>, year: nat)
    ensures YearRecords(lib, JArr(items), year).Failure? <==>
            exists i :: 0 <= i < |items| &&
              (!items[i].JObj? || "PubDate" !in items[i].fields || lib.yearOf(items[i].fields["PubDate"]).Raises?)
  {
    var outs := YearOutcomes(lib, items, year);
    GatherFailsIff(outs);
    forall i | 0 <= i < |items|
      ensures outs[i].Failure? <==>
              (!items[i].JObj? || "PubDate" !in items[i].fields || lib.yearOf(items[i].fields["PubDate"]).Raises?)
    {
    }
  }

  /** `records_of_year` in a run that reaches `year`: the cache file's value when
      the file exists, else the year's partition of the source file. Cache files
      are only written for their own year, so whether one exists is decided by
      the disk the run starts from. */
  function RecordsOfYear(lib: DateLib, files: map<string, JsonFile>, year: nat): Result<Json, PyError> {
    if MasterFile(year) in files then LoadJson(files, MasterFile(year))
    else match LoadJson(files, SOURCE_FILE)
      case Failure(e) => Failure(e)
      case Success(records) =>
        match YearRecords(lib, records, year)
        case Failure(e) => Failure(e)
        case Success(part) => Success(JArr(part))
  }

  /** `random.sample(records_of_year, samples_per_year)`. */
  function YearSample(pool: Json, draw: nat -> nat): (r: Result<seq<Json>, PyError>)
    ensures r.Success? ==> |r.value| == SAMPLES_PER_YEAR
  {
    match Population(pool)
    case None => Failure(TypeError)
    case Some(p) => Sample(p, SAMPLES_PER_YEAR, draw)
  }

  function YearAt(t: nat): nat {
    FIRST_YEAR + t
  }

  /** Pass `t` of the year loop: the records of its year, then their sample;
      `draws(t)` is the random stream of that call to `random.sample`. */
  function YearPass(lib: DateLib, files: map<string, JsonFile>, draws: nat -> nat -> nat, t: nat): Result<seq<Json>, PyError> {
    match RecordsOfYear(lib, files, YearAt(t))
    case Failure(e) => Failure(e)
    case Success(pool) => YearSample(pool, draws(t))
  }

  function YearPasses(lib: DateLib, files: map<string, JsonFile>, draws: nat -> nat -> nat, n: nat): seq<Result<seq<Json>, PyError>> {
    seq(n, t requires 0 <= t < n => YearPass(lib, files, draws, t))
  }

  /** `sampled_records` after the first `n` years, or the exception that ended the loop. */
  function SampledUpTo(lib: DateLib, files: map<string, JsonFile>, draws: nat -> nat -> nat, n: nat): Result<seq<Json>, PyError> {
    Flatten(YearPasses(lib, files, draws, n))
  }

  /** The cache file pass `t` writes, if any: a year without a cache file
      gets one holding its partition (written before sampling, so it is there
      even when the sample then raises). */
  function CacheWrite(lib: DateLib, files: map<string, JsonFile>): nat -> Option<Json> {
    (t: nat) =>
      if MasterFile(YearAt(t)) in files then None
      else match RecordsOfYear(lib, files, YearAt(t))
        case Failure(_) => None
        case Success(pool) => Some(pool)
  }

  /** The disk after the first `n` passes of a loop that writes `write(t)` to
      the cache file of pass `t`. */
  function Written(files: map<string, JsonFile>, write: nat -> Option<Json>, n: nat): map<string, JsonFile>
    decreases n
  {
    if n == 0 then files
    else
      var d := Written(files, write, n - 1);
      match write(n - 1)
      case None => d
      case Some(v) => d[MasterFile(YearAt(n - 1)) := Parsed(v)]
  }

  /** The disk after the first `n` years. */
  function DiskAfter(lib: DateLib, files: map<string, JsonFile>, n: nat): map<string, JsonFile> {
    Written(files, CacheWrite(lib, files), n)
  }

  /** A file that is the cache file of none of the first `n` passes is as the loop found it. */
  lemma {:induction false} WrittenElsewhere(files: map<string, JsonFile>, write: nat -> Option<Json>, n: nat, p: string)
    requires forall t :: 0 <= t < n ==> p != MasterFile(YearAt(t))
    ensures p in Written(files, write, n) <==> p in files
    ensures p in files ==> Written(files, write, n)[p] == files[p]
    decreases n
  {
    if n > 0 {
      WrittenElsewhere(files, write, n - 1, p);
      assert p != MasterFile(YearAt(n - 1));
    }
  }

  /** A loop that only writes cache files that do not exist overwrites no file. */
  lemma {:induction false} WrittenKeeps(files: map<string, JsonFile>, write: nat -> Option<Json>, n: nat)
    requires forall t :: 0 <= t < n && write(t).Some? ==> MasterFile(YearAt(t)) !in files
    ensures forall p :: p in files ==> p in Written(files, write, n) && Written(files, write, n)[p] == files[p]
    decreases n
  {
    if n > 0 {
      WrittenKeeps(files, write, n - 1);
    }
  }

  /** A loop none of whose passes writes leaves the disk as it found it. */
  lemma {:induction false} WrittenNothing(files: map<string, JsonFile>, write: nat -> Option<Json>, n: nat)
    requires forall t :: 0 <= t < n ==> write(t).None?
    ensures Written(files, write, n) == files
    decreases n
  {
    if n > 0 {
      WrittenNothing(files, write, n - 1);
    }
  }

  /** What pass `t` writes is still there after pass `n`: later passes write other files. */
  lemma {:induction false} WrittenAt(files: map<string, JsonFile>, write: nat -> Option<Json>, n: nat, t: nat)
    requires t < n && write(t).Some?
    ensures MasterFile(YearAt(t)) in Written(files, write, n)
    ensures Written(files, write, n)[MasterFile(YearAt(t))] == Parsed(write(t).value)
    decreases n
  {
    if t < n - 1 {
      WrittenAt(files, write, n - 1, t);
      MasterFileDistinct(YearAt(t), YearAt(n - 1));
    }
  }

  /** A file that is the cache file of none of the first `n` years is as the run found it. */
  lemma DiskAfterElsewhere(lib: DateLib, files: map<string, JsonFile>, n: nat, p: string)
    requires forall t :: 0 <= t < n ==> p != MasterFile(YearAt(t))
    ensures p in DiskAfter(lib, files, n) <==> p in files
    ensures p in files ==> DiskAfter(lib, files, n)[p] == files[p]
  {
    WrittenElsewhere(files, CacheWrite(lib, files), n, p);
  }

  /** No file the run found on disk is overwritten; in particular an existing
      cache file is used as it is. */
  lemma DiskKeepsFiles(lib: DateLib, files: map<string, JsonFile>, n: nat)
    ensures forall p :: p in files ==> p in DiskAfter(lib, files, n) && DiskAfter(lib, files, n)[p] == files[p]
  {
    WrittenKeeps(files, CacheWrite(lib, files), n);
  }

  /** A year without a cache file whose partition succeeded has one afterwards,
      holding that partition. */
  lemma DiskWritten(lib: DateLib, files: map<string, JsonFile>, n: nat, t: nat)
    requires t < n && MasterFile(YearAt(t)) !in files && RecordsOfYear(lib, files, YearAt(t)).Success?
    ensures MasterFile(YearAt(t)) in DiskAfter(lib, files, n)
    ensures DiskAfter(lib, files, n)[MasterFile(YearAt(t))] == Parsed(RecordsOfYear(lib, files, YearAt(t)).value)
  {
    WrittenAt(files, CacheWrite(lib, files), n, t);
  }

  /** `sampled_records` grows by exactly `samples_per_year` records a year. */
  lemma SampledSize(lib: DateLib, files: map<string, JsonFile>, draws: nat -> nat -> nat, n: nat)
    requires SampledUpTo(lib, files, draws, n).Success?
    ensures |SampledUpTo(lib, files, draws, n).value| == SAMPLES_PER_YEAR * n
  {
    FlattenLength(YearPasses(lib, files, draws, n), SAMPLES_PER_YEAR);
    TimesIsProduct(SAMPLES_PER_YEAR, n);
  }

  /** Block `t` of `sampled_records` is the sample of year `2005 + t`, drawn
      from that year's records. */
  lemma SampledBlock(lib: DateLib, files: map<string, JsonFile>, draws: nat -> nat -> nat, n: nat, t: nat)
    requires t < n && SampledUpTo(lib, files, draws, n).Success?
    ensures RecordsOfYear(lib, files, YearAt(t)).Success?
    ensures var all := SampledUpTo(lib, files, draws, n).value;
            var pool := RecordsOfYear(lib, files, YearAt(t)).value;
            && YearSample(pool, draws(t)).Success?
            && SAMPLES_PER_YEAR * (t + 1) <= |all|
            && all[SAMPLES_PER_YEAR * t..SAMPLES_PER_YEAR * (t + 1)] == YearSample(pool, draws(t)).value
  {
    var outs := YearPasses(lib, files, draws, n);
    FlattenBlock(outs, SAMPLES_PER_YEAR, t);
    TimesIsProduct(SAMPLES_PER_YEAR, t);
    TimesIsProduct(SAMPLES_PER_YEAR, t + 1);
    assert outs[t] == YearPass(lib, files, draws, t);
  }

  /** A list partition of the source is a list, and a sample of it is drawn
      without replacement from records of the year. */
  lemma PartitionSample(lib: DateLib, records: Json, year: nat, draw: nat -> nat) returns (pos: seq<nat>)
    requires YearRecords(lib, records, year).Success?
    requires YearSample(JArr(YearRecords(lib, records, year).value), draw).Success?
    ensures var part := YearRecords(lib, records, year).value;
            var sample := YearSample(JArr(part), draw).value;
            && |pos| == SAMPLES_PER_YEAR && Distinct(pos)
            && forall a :: 0 <= a < SAMPLES_PER_YEAR ==>
                 pos[a] < |part| && sample[a] == part[pos[a]] && InYearOf(lib, sample[a], year)
  {
    var part := YearRecords(lib, records, year).value;
    assert |part| >= SAMPLES_PER_YEAR;
    assert records.JArr?;
    var inPart := YearRecordsExact(lib, records.items, year);
    pos := SamplePositions(part, SAMPLES_PER_YEAR, draw);
  }

  /** For a year the run partitioned itself, every sampled record of that year
      is a dict whose PubDate falls in that year, and the year's records come
      from distinct positions of its partition. */
  lemma SampledOfYear(lib: DateLib, files: map<string, JsonFile>, draws: nat -> nat -> nat, n: nat, t: nat)
    returns (pos: seq<nat>)
    requires t < n && SampledUpTo(lib, files, draws, n).Success? && MasterFile(YearAt(t)) !in files
    ensures LoadJson(files, SOURCE_FILE).Success?
    ensures YearRecords(lib, LoadJson(files, SOURCE_FILE).value, YearAt(t)).Success?
    ensures var all := SampledUpTo(lib, files, draws, n).value;
            var part := YearRecords(lib, LoadJson(files, SOURCE_FILE).value, YearAt(t)).value;
            && |pos| == SAMPLES_PER_YEAR && Distinct(pos) && SAMPLES_PER_YEAR * (t + 1) <= |all|
            && forall a :: 0 <= a < SAMPLES_PER_YEAR ==>
                 pos[a] < |part| && all[SAMPLES_PER_YEAR * t + a] == part[pos[a]]
                 && InYearOf(lib, all[SAMPLES_PER_YEAR * t + a], YearAt(t))
  {
    SampledBlock(lib, files, draws, n, t);
    var all := SampledUpTo(lib, files, draws, n).value;
    var records := LoadJson(files, SOURCE_FILE).value;
    var part := YearRecords(lib, records, YearAt(t)).value;
    assert RecordsOfYear(lib, files, YearAt(t)).value == JArr(part);
    var block := YearSample(JArr(part), draws(t)).value;
    pos := PartitionSample(lib, records, YearAt(t), draws(t));
    forall a | 0 <= a < SAMPLES_PER_YEAR ensures all[SAMPLES_PER_YEAR * t + a] == block[a] {
      assert all[SAMPLES_PER_YEAR * t..SAMPLES_PER_YEAR * (t + 1)][a] == block[a];
    }
  }

  /** Neither a later year's cache file nor the source file has been touched by the first `i` years. */
  lemma UntouchedSoFar(lib: DateLib, files: map<string, JsonFile>, i: nat)
    ensures MasterFile(YearAt(i)) in DiskAfter(lib, files, i) <==> MasterFile(YearAt(i)) in files
    ensures MasterFile(YearAt(i)) in files ==>
              DiskAfter(lib, files, i)[MasterFile(YearAt(i))] == files[MasterFile(YearAt(i))]
    ensures SOURCE_FILE in DiskAfter(lib, files, i) <==> SOURCE_FILE in files
    ensures SOURCE_FILE in files ==> DiskAfter(lib, files, i)[SOURCE_FILE] == files[SOURCE_FILE]
  {
    forall t | 0 <= t < i ensures MasterFile(YearAt(i)) != MasterFile(YearAt(t)) && SOURCE_FILE != MasterFile(YearAt(t)) {
      MasterFileDistinct(YearAt(i), YearAt(t));
      MasterFileDistinct(YearAt(t), YearAt(t));
    }
    DiskAfterElsewhere(lib, files, i, MasterFile(YearAt(i)));
    DiskAfterElsewhere(lib, files, i, SOURCE_FILE);
  }

  /** The first half of a pass of the year loop: `records_of_year` from the
      cache file when it exists, else from the source file (loaded only if
      `records` is still None), and written to the cache file. `readSource` says
      whether the source file is opened in this pass. */
  method RecordsStep(lib: DateLib, files: map<string, JsonFile>, i: nat, disk: map<string, JsonFile>, records: Option<Json>)
    returns (pool: Result<Json, PyError>, nextDisk: map<string, JsonFile>, nextRecords: Option<Json>, ghost readSource: bool)
    requires disk == DiskAfter(lib, files, i)
    requires records.Some? ==> LoadJson(files, SOURCE_FILE) == Success(records.value)
    ensures pool == RecordsOfYear(lib, files, YearAt(i))
    ensures nextDisk == DiskAfter(lib, files, i + 1)
    ensures nextRecords.Some? ==> LoadJson(files, SOURCE_FILE) == Success(nextRecords.value)
    ensures records.Some? ==> nextRecords == records
    ensures readSource <==> records.None? && MasterFile(YearAt(i)) !in files
    ensures pool.Success? ==> (nextRecords.Some? <==> records.Some? || readSource)
  {
    UntouchedSoFar(lib, files, i);
    var master := MasterFile(FIRST_YEAR + i);
    nextDisk, nextRecords, readSource := disk, records, false;
    if master in disk {
      pool := LoadJson(disk, master);
      return;
    }
    if records.None? {
      readSource := true;
      var loaded := LoadJson(disk, SOURCE_FILE);
      if loaded.Failure? {
        pool := Failure(loaded.error);
        return;
      }
      nextRecords := Some(loaded.value);
    }
    var part := YearRecords(lib, nextRecords.value, FIRST_YEAR + i);
    if part.Failure? {
      pool := Failure(part.error);
      return;
    }
    pool := Success(JArr(part.value));
    nextDisk := disk[master := Parsed(pool.value)];
  }

  /** Each of the first `n` years has a cache file on the disk the run starts from. */
  predicate AllCached(files: map<string, JsonFile>, n: nat)
    decreases n
  {
    n == 0 || (AllCached(files, n - 1) && MasterFile(YearAt(n - 1)) in files)
  }

  lemma {:induction false} AllCachedAt(files: map<string, JsonFile>, n: nat, t: nat)
    requires AllCached(files, n) && t < n
    ensures MasterFile(YearAt(t)) in files
    decreases n
  {
    if t < n - 1 {
      AllCachedAt(files, n - 1, t);
    }
  }

  lemma {:induction false} AllCachedFrom(files: map<string, JsonFile>, n: nat)
    requires forall t :: 0 <= t < n ==> MasterFile(YearAt(t)) in files
    ensures AllCached(files, n)
    decreases n
  {
    if n > 0 {
      AllCachedFrom(files, n - 1);
    }
  }

  lemma AllCachedMeaning(files: map<string, JsonFile>, n: nat)
    ensures AllCached(files, n) <==> forall t :: 0 <= t < n ==> MasterFile(YearAt(t)) in files
  {
    forall t | 0 <= t < n && AllCached(files, n) ensures MasterFile(YearAt(t)) in files {
      AllCachedAt(files, n, t);
    }
    if forall t :: 0 <= t < n ==> MasterFile(YearAt(t)) in files {
      AllCachedFrom(files, n);
    }
  }

  /** One more year: the exception raised so far, else what the pass raises,
      else the records so far followed by the year's sample. */
  lemma SampledStep(lib: DateLib, files: map<string, JsonFile>, draws: nat -> nat -> nat, i: nat)
    ensures SampledUpTo(lib, files, draws, i + 1) ==
            match SampledUpTo(lib, files, draws, i)
            case Failure(e) => Failure(e)
            case Success(prev) =>
              match YearPass(lib, files, draws, i)
              case Failure(e) => Failure(e)
              case Success(block) => Success(prev + block)
  {
    var outs := YearPasses(lib, files, draws, i + 1);
    assert outs[..i] == YearPasses(lib, files, draws, i);
    assert outs[i] == YearPass(lib, files, draws, i);
  }

  /** Once a year raised, the run ends with that exception. */
  lemma {:induction false} SampledSticks(lib: DateLib, files: map<string, JsonFile>, draws: nat -> nat -> nat, m: nat, n: nat)
    requires m <= n && SampledUpTo(lib, files, draws, m).Failure?
    ensures SampledUpTo(lib, files, draws, n) == SampledUpTo(lib, files, draws, m)
    decreases n
  {
    if m < n {
      SampledSticks(lib, files, draws, m, n - 1);
      SampledStep(lib, files, draws, n - 1);
    }
  }

  /** The state of the year loop after `i` years that raised nothing: the
      records sampled so far, the disk with the cache files written so far, the
      source records once they are loaded, and how often the source file was
      opened (once exactly when some year so far had no cache file). */
  ghost predicate Progress(lib: DateLib, files: map<string, JsonFile>, draws: nat -> nat -> nat, i: nat,
                           acc: seq<Json>, disk: map<string, JsonFile>, records: Option<Json>, loads: nat)
  {
    && SampledUpTo(lib, files, draws, i) == Success(acc)
    && disk == DiskAfter(lib, files, i)
    && (records.Some? ==> LoadJson(files, SOURCE_FILE) == Success(records.value))
    && loads == (if records.Some? then 1 else 0)
    && (records.None? <==> AllCached(files, i))
  }

  /** The state after year `reached` raised. */
  ghost predicate Stopped(lib: DateLib, files: map<string, JsonFile>, draws: nat -> nat -> nat, reached: nat,
                          disk: map<string, JsonFile>, loads: nat)
  {
    && 0 < reached
    && SampledUpTo(lib, files, draws, reached - 1).Success?
    && SampledUpTo(lib, files, draws, reached).Failure?
    && disk == DiskAfter(lib, files, reached)
    && loads <= 1
    && (loads == 0 <==> AllCached(files, reached))
  }

  /** One pass of the year loop: the records of the year, then their sample. */
  method YearStep(lib: DateLib, files: map<string, JsonFile>, draws: nat -> nat -> nat, i: nat,
                  acc: seq<Json>, disk: map<string, JsonFile>, records: Option<Json>, ghost loads: nat)
    returns (sample: Result<seq<Json>, PyError>, nextDisk: map<string, JsonFile>, nextRecords: Option<Json>, ghost nextLoads: nat)
    requires Progress(lib, files, draws, i, acc, disk, records, loads)
    ensures sample == YearPass(lib, files, draws, i)
    ensures sample.Success? ==> Progress(lib, files, draws, i + 1, acc + sample.value, nextDisk, nextRecords, nextLoads)
    ensures sample.Failure? ==> Stopped(lib, files, draws, i + 1, nextDisk, nextLoads)
                                && SampledUpTo(lib, files, draws, i + 1) == Failure(sample.error)
  {
    var pool;
    ghost var readSource;
    pool, nextDisk, nextRecords, readSource := RecordsStep(lib, files, i, disk, records);
    nextLoads := if readSource then loads + 1 else loads;
    SampledStep(lib, files, draws, i);
    if pool.Failure? {
      return Failure(pool.error), nextDisk, nextRecords, nextLoads;
    }
    sample := YearSample(pool.value, draws(i));
  }

  /** The year loop of `main`: for each year of `range(2005, 2026)` the cache
      file is loaded when it exists; otherwise the source file is loaded (once,
      the first time it is needed), the year's records are taken from it and
      written to the cache file; then the year's sample is appended. An
      exception ends the run after `reached` years were begun. `loads` counts
      the times the source file is opened. */
  method SampleYears(lib: DateLib, files: map<string, JsonFile>, draws: nat -> nat -> nat)
    returns (sampled: Result<seq<Json>, PyError>, disk: map<string, JsonFile>, ghost reached: nat, ghost loads: nat)
    ensures sampled == SampledUpTo(lib, files, draws, YEARS)
    ensures 0 < reached <= YEARS && disk == DiskAfter(lib, files, reached)
    ensures sampled.Success? ==> reached == YEARS
    ensures sampled.Failure? ==> SampledUpTo(lib, files, draws, reached - 1).Success?
                                 && SampledUpTo(lib, files, draws, reached).Failure?
    ensures loads <= 1
    ensures loads == 0 <==> AllCached(files, reached)
  {
    var acc: seq<Json> := [];
    var records: Option<Json> := None;
    disk, loads := files, 0;
    assert YearPasses(lib, files, draws, 0) == [];
    for i := 0 to YEARS
      invariant Progress(lib, files, draws, i, acc, disk, records, loads)
    {
      var sample;
      sample, disk, records, loads := YearStep(lib, files, draws, i, acc, disk, records, loads);
      if sample.Failure? {
        sampled, reached := Failure(sample.error), i + 1;
        SampledSticks(lib, files, draws, i + 1, YEARS);
        return;
      }
      acc := acc + sample.value;
    }
    sampled, reached := Success(acc), YEARS;
  }

  // ---------------------------------------------------------------------------
  // Running main again on the disk a run leaves
  // ---------------------------------------------------------------------------

  /** After year `t` the cache file of year `t` exists, and reading it gives
      the records of the year the pass used. */
  lemma CachedYear(lib: DateLib, files: map<string, JsonFile>, n: nat, t: nat)
    requires t < n && RecordsOfYear(lib, files, YearAt(t)).Success?
    ensures MasterFile(YearAt(t)) in DiskAfter(lib, files, n)
    ensures RecordsOfYear(lib, DiskAfter(lib, files, n), YearAt(t)) == RecordsOfYear(lib, files, YearAt(t))
  {
    var master := MasterFile(YearAt(t));
    if master in files {
      DiskKeepsFiles(lib, files, n);
    } else {
      DiskWritten(lib, files, n, t);
    }
  }

  /** A pass that did not raise reads, on the disk the run leaves, the same
      records and so draws the same sample. */
  lemma ReplayYear(lib: DateLib, files: map<string, JsonFile>, draws: nat -> nat -> nat, t: nat)
    requires t < YEARS && YearPass(lib, files, draws, t).Success?
    ensures MasterFile(YearAt(t)) in DiskAfter(lib, files, YEARS)
    ensures YearPass(lib, DiskAfter(lib, files, YEARS), draws, t) == YearPass(lib, files, draws, t)
  {
    CachedYear(lib, files, YEARS, t);
  }

  /** A run on a disk that has the cache files of all the years writes nothing. */
  lemma CachedDiskStays(lib: DateLib, disk: map<string, JsonFile>, n: nat)
    requires AllCached(disk, n)
    ensures DiskAfter(lib, disk, n) == disk
  {
    AllCachedMeaning(disk, n);
    WrittenNothing(disk, CacheWrite(lib, disk), n);
  }

  /** Two disks on which every pass comes out the same give the same passes. */
  lemma SamePasses(lib: DateLib, a: map<string, JsonFile>, b: map<string, JsonFile>, draws: nat -> nat -> nat, n: nat)
    requires forall t :: 0 <= t < n ==> YearPass(lib, a, draws, t) == YearPass(lib, b, draws, t)
    ensures YearPasses(lib, a, draws, n) == YearPasses(lib, b, draws, n)
  {
  }

  /** When a run samples every year, all its passes come out the same on the
      disk it leaves, where every year has its cache file. */
  lemma ReplayPasses(lib: DateLib, files: map<string, JsonFile>, draws: nat -> nat -> nat)
    requires SampledUpTo(lib, files, draws, YEARS).Success?
    ensures forall t :: 0 <= t < YEARS ==> MasterFile(YearAt(t)) in DiskAfter(lib, files, YEARS)
    ensures YearPasses(lib, DiskAfter(lib, files, YEARS), draws, YEARS) == YearPasses(lib, files, draws, YEARS)
  {
    var disk := DiskAfter(lib, files, YEARS);
    var outs := YearPasses(lib, files, draws, YEARS);
    FlattenLength(outs, SAMPLES_PER_YEAR);
    forall t | 0 <= t < YEARS
      ensures MasterFile(YearAt(t)) in disk && YearPass(lib, disk, draws, t) == YearPass(lib, files, draws, t)
    {
      assert outs[t] == YearPass(lib, files, draws, t);
      ReplayYear(lib, files, draws, t);
    }
    SamePasses(lib, disk, files, draws, YEARS);
  }

  /** When a run samples every year, a second run with the same random
      streams on the disk the first one left finds every cache file, so it
      opens no source file, writes nothing and samples the same records. */
  lemma CacheReplay(lib: DateLib, files: map<string, JsonFile>, draws: nat -> nat -> nat)
    requires SampledUpTo(lib, files, draws, YEARS).Success?
    ensures var disk := DiskAfter(lib, files, YEARS);
            && AllCached(disk, YEARS)
            && DiskAfter(lib, disk, YEARS) == disk
            && SampledUpTo(lib, disk, draws, YEARS) == SampledUpTo(lib, files, draws, YEARS)
  {
    var disk := DiskAfter(lib, files, YEARS);
    ReplayPasses(lib, files, draws);
    AllCachedMeaning(disk, YEARS);
    CachedDiskStays(lib, disk, YEARS);
  }

  /** What `main` comes to before the topic model: the exception that ended
      it, None when no document survived (it prints and returns), or the
      corpus and timestamps handed to BERTopic. */
  function MainOutcome(lib: DateLib, files: map<string, JsonFile>, draws: nat -> nat -> nat): Result<Option<Corpus>, PyError> {
    match SampledUpTo(lib, files, draws, YEARS)
    case Failure(e) => Failure(e)
    case Success(sampled) =>
      match Prepared(lib, sampled)
      case Failure(e) => Failure(e)
      case Success(c) => Success(if |c.docs| == 0 then None else Some(c))
  }

  /** `main` up to fitting the topic model. */
  method RunMain(lib: DateLib, files: map<string, JsonFile>, draws: nat -> nat -> nat)
    returns (outcome: Result<Option<Corpus>, PyError>, disk: map<string, JsonFile>)
    ensures outcome == MainOutcome(lib, files, draws)
    ensures SampledUpTo(lib, files, draws, YEARS).Success? ==> disk == DiskAfter(lib, files, YEARS)
    ensures forall p :: p in files ==> p in disk && disk[p] == files[p]
  {
    var sampled;
    ghost var reached, loads;
    sampled, disk, reached, loads := SampleYears(lib, files, draws);
    DiskKeepsFiles(lib, files, reached);
    if sampled.Failure? {
      return Failure(sampled.error), disk;
    }
    var prepared := PrepareCorpus(lib, sampled.value);
    if prepared.Failure? {
      return Failure(prepared.error), disk;
    }
    if |prepared.value.docs| == 0 {
      return Success(None), disk;
    }
    outcome := Success(Some(prepared.value));
  }

  /** The corpus handed to BERTopic: as many timestamps as documents, at most
      `samples_per_year` per year of the range, each document a non-blank
      stripped tokens string. */
  lemma MainCorpus(lib: DateLib, files: map<string, JsonFile>, draws: nat -> nat -> nat)
    requires MainOutcome(lib, files, draws).Success? && MainOutcome(lib, files, draws).value.Some?
    ensures var c := MainOutcome(lib, files, draws).value.value;
            && 0 < |c.docs| == |c.timestamps| <= SAMPLES_PER_YEAR * YEARS
            && forall k :: 0 <= k < |c.docs| ==> c.docs[k] != "" && IsStripped(c.docs[k])
  {
    var sampled := SampledUpTo(lib, files, draws, YEARS).value;
    SampledSize(lib, files, draws, YEARS);
    var pos := PreparedInOrder(lib, sampled);
  }
}
