/**
 * text_cleaner.py: for every `.json` file of a folder, the cleaned abstracts of
 * its records, one per line, in a `_cleaned.txt` file of another folder.
 */
module TextCleaner {
  import opened Wrappers
  import opened PyStr
  import opened PyData
  import opened Loops
  import opened TextNormalizer

  const INPUT_FOLDER: string := "data/processed"
  const OUTPUT_FOLDER: string := "data/cleaned"

  // ---------------------------------------------------------------------------
  // The record loop of preprocess_file
  // ---------------------------------------------------------------------------

  /** `record.get('Abstract', '')`. A record that is not a dict has no `get`:
      the AttributeError is already raised by `record.get('PubDate', '')`. */
  function AbstractOf(record: Json): Result<Json, PyError> {
    if record.JObj? then Success(Get(record.fields, "Abstract", JStr(""))) else Failure(AttributeError)
  }

  /** The abstract is a string longer than 20 characters whose cleaned text is not blank. */
  predicate Usable(nz: Normalizer, abs: Json) {
    abs.JStr? && |abs.s| > 20 && Strip(Preprocess(nz, abs.s)) != ""
  }

  /** One pass of the loop: the cleaned abstract it appends, nothing, or the
      exception. The date is only handed to pandas inside a bare `try`, whose
      failure is printed, so it plays no part. */
  function CleanOutcome(nz: Normalizer, record: Json): Result<Option<string>, PyError> {
    match AbstractOf(record)
    case Failure(e) => Failure(e)
    case Success(abs) =>
      if Usable(nz, abs) then Success(Some(Preprocess(nz, abs.s))) else Success(None)
  }

  function CleanOutcomes(nz: Normalizer, records: seq<Json>): seq<Result<Option<string>, PyError>> {
    seq(|records|, i requires 0 <= i < |records| => CleanOutcome(nz, records[i]))
  }

  /** The `docs` of `preprocess_file` for the records of a file, or the exception. */
  function CleanedDocs(nz: Normalizer, records: seq<Json>): Result<seq<string>, PyError> {
    Gather(CleanOutcomes(nz, records))
  }

  /** The loop `for record in data` of `preprocess_file`. */
  method CleanRecords(nz: Normalizer, records: seq<Json>) returns (r: Result<seq<string>, PyError>)
    ensures r == CleanedDocs(nz, records)
  {
    ghost var outs := CleanOutcomes(nz, records);
    var docs: seq<string> := [];
    for i := 0 to |records|
      invariant Gather(outs[..i]) == Success(docs)
    {
      assert outs[..i + 1][..i] == outs[..i];
      assert outs[i] == CleanOutcome(nz, records[i]);
      var record := records[i];
      if !record.JObj? {
        r := Failure(AttributeError);
        GatherFailsAt(outs, i);
        return;
      }
      var abs := Get(record.fields, "Abstract", JStr(""));
      if abs.JStr? && |abs.s| > 20 {
        var cleaned := Preprocess(nz, abs.s);
        if Strip(cleaned) != "" {
          docs := docs + [cleaned];
        }
      }
    }
    assert outs[..|records|] == outs;
    r := Success(docs);
  }

  /** The loop raises exactly when some record is not a dict, and then with an AttributeError. */
  lemma CleanedFailsIff(nz: Normalizer, records: seq<Json>)
    ensures CleanedDocs(nz, records).Failure? <==> exists i :: 0 <= i < |records| && !records[i].JObj?
    ensures CleanedDocs(nz, records).Failure? ==> CleanedDocs(nz, records).error == AttributeError
  {
    var outs := CleanOutcomes(nz, records);
    GatherFailsIff(outs);
    forall i | 0 <= i < |records|
      ensures outs[i].Failure? <==> !records[i].JObj?
      ensures outs[i].Failure? ==> outs[i].error == AttributeError
    {
    }
  }

  /** The docs are the cleaned abstracts of the usable records, in record order:
      doc `k` comes from record `pos[k]`, the positions increase, every record
      with a usable abstract is among them, and no doc is blank. */
  lemma CleanedInOrder(nz: Normalizer, records: seq<Json>) returns (pos: seq<nat>)
    requires CleanedDocs(nz, records).Success?
    ensures var docs := CleanedDocs(nz, records).value;
            && |pos| == |docs| <= |records| && StrictlyIncreasing(pos)
            && (forall k :: 0 <= k < |pos| ==>
                  pos[k] < |records| && records[pos[k]].JObj?
                  && var abs := Get(records[pos[k]].fields, "Abstract", JStr(""));
                     Usable(nz, abs) && docs[k] == Preprocess(nz, abs.s) && Strip(docs[k]) != "")
            && (forall i :: (0 <= i < |records| && records[i].JObj?
                             && Usable(nz, Get(records[i].fields, "Abstract", JStr("")))) ==> i in pos)
  {
    var outs := CleanOutcomes(nz, records);
    pos := GatherInOrder(outs);
    forall i | 0 <= i < |records| ensures outs[i] == CleanOutcome(nz, records[i]) { }
  }

  /** A record's PubDate plays no part: giving one record any other date leaves the docs as they are. */
  lemma DateIgnored(nz: Normalizer, records: seq<Json>, i: nat, date: Json)
    requires i < |records| && records[i].JObj?
    ensures CleanedDocs(nz, records[i := JObj(records[i].fields["PubDate" := date])]) == CleanedDocs(nz, records)
  {
    var other := records[i := JObj(records[i].fields["PubDate" := date])];
    assert Get(other[i].fields, "Abstract", JStr("")) == Get(records[i].fields, "Abstract", JStr(""));
    assert CleanOutcomes(nz, other) == CleanOutcomes(nz, records);
  }

  /** The tokeniser splits every text on whitespace, as `word_tokenize` does. */
  ghost predicate SplitsOnSpace(nz: Normalizer) {
    forall text: string :: TokenizerSplitsOnSpace(nz, text)
  }

  /** With such a tokeniser every doc is one line, so the written file holds one
      newline per doc and splitting it on newlines gives the docs back. */
  lemma CleanedLineCount(nz: Normalizer, records: seq<Json>)
    requires SplitsOnSpace(nz) && CleanedDocs(nz, records).Success?
    ensures var docs := CleanedDocs(nz, records).value;
            && CountChar(Lines(docs), '\n') == |docs|
            && Split(Lines(docs), '\n') == docs + [""]
  {
    var docs := CleanedDocs(nz, records).value;
    var pos := CleanedInOrder(nz, records);
    forall k | 0 <= k < |docs| ensures '\n' !in docs[k] {
      var abs := Get(records[pos[k]].fields, "Abstract", JStr(""));
      assert TokenizerSplitsOnSpace(nz, abs.s);
      PreprocessOneLine(nz, abs.s);
    }
    LinesRoundTrip(docs);
  }

  // ---------------------------------------------------------------------------
  // preprocess_file and the folder loop
  // ---------------------------------------------------------------------------

  /** The write loop: `doc + '\n'` for every doc, in order. */
  method WriteDocs(docs: seq<string>) returns (text: string)
    ensures text == Lines(docs)
  {
    text := "";
    for i := 0 to |docs|
      invariant text == Lines(docs[..i])
    {
      LinesAppend(docs[..i], docs[i]);
      assert docs[..i + 1] == docs[..i] + [docs[i]];
      text := text + (docs[i] + "\n");
    }
    assert docs[..|docs|] == docs;
  }

  /** What `preprocess_file` writes for an input file: its docs, or the exception. */
  function FileDocs(nz: Normalizer, inputs: map<string, JsonFile>, path: string): Result<seq<string>, PyError> {
    match LoadJson(inputs, path)
    case Failure(e) => Failure(e)
    case Success(data) => if data.JArr? then CleanedDocs(nz, data.items) else Failure(NotAnArray)
  }

  /** `preprocess_file(input_path, output_path)`: on success the output text
      file holds the docs one per line and nothing else changes; an exception
      raised while loading or cleaning leaves the text files as they were. */
  method PreprocessFile(nz: Normalizer, inputs: map<string, JsonFile>, texts: map<string, string>,
                        inputPath: string, outputPath: string)
    returns (next: map<string, string>, error: Option<PyError>)
    ensures FileDocs(nz, inputs, inputPath).Success? ==>
              error.None? && next == texts[outputPath := Lines(FileDocs(nz, inputs, inputPath).value)]
    ensures FileDocs(nz, inputs, inputPath).Failure? ==>
              error == Some(FileDocs(nz, inputs, inputPath).error) && next == texts
  {
    var loaded := LoadJson(inputs, inputPath);
    if loaded.Failure? {
      return texts, Some(loaded.error);
    }
    if !loaded.value.JArr? {
      return texts, Some(NotAnArray);
    }
    var docs := CleanRecords(nz, loaded.value.items);
    if docs.Failure? {
      return texts, Some(docs.error);
    }
    var text := WriteDocs(docs.value);
    next, error := texts[outputPath := text], None;
  }

  /** `filename.replace('.json', '_cleaned.txt')`: every occurrence is replaced. */
  function CleanedName(filename: string): string {
    Replace(filename, ".json", "_cleaned.txt")
  }

  function CleanedPath(filename: string): string {
    PathJoin(OUTPUT_FOLDER, CleanedName(filename))
  }

  lemma JsonNoSelfOverlap()
    ensures NoSelfOverlap(".json")
  {
    forall k | 0 < k < |".json"| ensures ".json"[k..] != ".json"[..|".json"| - k] {
      assert ".json"[k..][0] != '.';
    }
  }

  /** The output name of a `.json` file ends in `_cleaned.txt`; for a plain
      name `stem.json` (no '.' in the stem) it is `stem_cleaned.txt`. */
  lemma CleanedNameShape(filename: string)
    requires EndsWith(filename, ".json")
    ensures EndsWith(CleanedName(filename), "_cleaned.txt")
    ensures var stem := filename[..|filename| - 5];
            '.' !in stem ==> CleanedName(filename) == stem + "_cleaned.txt"
  {
    JsonNoSelfOverlap();
    ReplaceKeepsSuffix(filename, ".json", "_cleaned.txt");
    var stem := filename[..|filename| - 5];
    if '.' !in stem {
      assert filename == stem + ".json";
      ReplaceAfterPlain(stem, ".json", ".json", "_cleaned.txt");
      ReplaceAtStart(".json", "_cleaned.txt", "");
      assert ".json" + "" == ".json";
    }
  }

  /** The names whose files the loop processes. */
  predicate Processed(filename: string) {
    EndsWith(filename, ".json")
  }

  /** `p` is the output path of one of the first `n` names of the listing that are processed. */
  predicate OutputOfListed(p: string, listing: seq<string>, n: nat)
    requires n <= |listing|
  {
    exists j :: 0 <= j < n && Processed(listing[j]) && p == CleanedPath(listing[j])
  }

  /** Among the first `n` names of the listing, the `j`-th is the last processed
      one with its output path: no later processed name writes the same file. */
  predicate LastToWrite(listing: seq<string>, j: nat, n: nat)
    requires j < n <= |listing|
  {
    forall j' :: j < j' < n && Processed(listing[j']) ==> CleanedPath(listing[j']) != CleanedPath(listing[j])
  }

  /** The output file of `filename` holds the cleaned docs of its input file, one per line. */
  predicate HoldsCleaned(nz: Normalizer, inputs: map<string, JsonFile>, final: map<string, string>, filename: string) {
    var docs := FileDocs(nz, inputs, PathJoin(INPUT_FOLDER, filename));
    docs.Success? && CleanedPath(filename) in final && final[CleanedPath(filename)] == Lines(docs.value)
  }

  /** The folder loop: `preprocess_file` for every `.json` name of the listing,
      in listing order (`os.listdir`'s order is the listing's); an exception ends
      the run. After a complete run every such name has its output file, and the
      file holds the cleaned docs of the last name written to it; text files that
      are no name's output are never changed. */
  method CleanFolder(nz: Normalizer, inputs: map<string, JsonFile>, texts: map<string, string>, listing: seq<string>)
    returns (final: map<string, string>, error: Option<PyError>)
    ensures error.None? ==> forall i :: 0 <= i < |listing| && Processed(listing[i]) ==> CleanedPath(listing[i]) in final
    ensures error.None? ==> forall j :: 0 <= j < |listing| && Processed(listing[j]) && LastToWrite(listing, j, |listing|) ==>
              HoldsCleaned(nz, inputs, final, listing[j])
    ensures texts.Keys <= final.Keys
    ensures forall p :: p in texts && !OutputOfListed(p, listing, |listing|) ==> final[p] == texts[p]
  {
    final := texts;
    for i := 0 to |listing|
      invariant forall j :: 0 <= j < i && Processed(listing[j]) ==> CleanedPath(listing[j]) in final
      invariant forall j :: 0 <= j < i && Processed(listing[j]) && LastToWrite(listing, j, i) ==>
                  HoldsCleaned(nz, inputs, final, listing[j])
      invariant texts.Keys <= final.Keys
      invariant forall p :: p in texts && !OutputOfListed(p, listing, i) ==> final[p] == texts[p]
    {
      ghost var prev := final;
      var filename := listing[i];
      if EndsWith(filename, ".json") {
        var inputPath := PathJoin(INPUT_FOLDER, filename);
        var outputPath := PathJoin(OUTPUT_FOLDER, CleanedName(filename));
        var e;
        final, e := PreprocessFile(nz, inputs, final, inputPath, outputPath);
        if e.Some? {
          error := e;
          return;
        }
      }
      forall j | 0 <= j <= i && Processed(listing[j]) && LastToWrite(listing, j, i + 1)
        ensures HoldsCleaned(nz, inputs, final, listing[j])
      {
        if j < i {
          assert LastToWrite(listing, j, i);
          assert HoldsCleaned(nz, inputs, prev, listing[j]);
        }
      }
    }
    error := None;
  }
}
