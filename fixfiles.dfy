/**
 * fix_files.py: for every `.json` file of a folder, in sorted name order, the
 * items with a PubDate string pandas accepts, each numbered within its file
 * and given the cleaned tokens of its abstract, written to a file of the same
 * name in another folder.
 */
module FixFiles {
  import opened Wrappers
  import opened PyStr
  import opened PyData
  import opened Loops
  import opened TextNormalizer

  const INPUT_FOLDER: string := "data/processed_very_new"
  const OUTPUT_FOLDER: string := "data/tokenized"

  /** `is_valid_date(date_str)`: the parse call is made inside a `try` that
      catches every Exception, so the check itself never raises. */
  function IsValidDate(lib: DateLib, dateStr: string): bool {
    lib.parses(dateStr)
  }

  // ---------------------------------------------------------------------------
  // One pass of the loop over a file's items
  // ---------------------------------------------------------------------------

  /** The condition `'PubDate' in item and isinstance(item['PubDate'], str)
      and is_valid_date(item['PubDate'])`, evaluated left to right. `in` raises
      a TypeError on a number, a bool or null; on a string or a list that holds
      "PubDate", `item['PubDate']` raises a TypeError (they are indexed by
      integers). */
  function Condition(lib: DateLib, item: Json): Result<bool, PyError> {
    match In("PubDate", item)
    case None => Failure(TypeError)
    case Some(false) => Success(false)
    case Some(true) =>
      if item.JObj? then
        var date := item.fields["PubDate"];
        Success(date.JStr? && IsValidDate(lib, date.s))
      else Failure(TypeError)
  }

  /** A dict whose PubDate is a string the date parser accepts. */
  predicate Valid(lib: DateLib, item: Json) {
    item.JObj? && "PubDate" in item.fields && item.fields["PubDate"].JStr?
    && lib.parses(item.fields["PubDate"].s)
  }

  /** The condition holds exactly for the valid items; it raises exactly for
      scalars and for strings and lists in which "PubDate" is found, always
      with a TypeError. */
  lemma ConditionMeaning(lib: DateLib, item: Json)
    ensures Condition(lib, item) == Success(true) <==> Valid(lib, item)
    ensures Condition(lib, item).Failure? <==>
              !(item.JStr? || item.JArr? || item.JObj?)
              || (item.JStr? && Occurs("PubDate", item.s))
              || (item.JArr? && JStr("PubDate") in item.items)
    ensures Condition(lib, item).Failure? ==> Condition(lib, item).error == TypeError
  {
  }

  /** `item['tokens'] = preprocess_text(item['Abstract'])`: a KeyError without
      an Abstract, an AttributeError (no `lower`) when it is not a string. */
  function WithTokens(nz: Normalizer, fields: map<string, Json>): Result<map<string, Json>, PyError> {
    if "Abstract" !in fields then Failure(KeyError("Abstract"))
    else if !fields["Abstract"].JStr? then Failure(AttributeError)
    else Success(fields["tokens" := JStr(Preprocess(nz, fields["Abstract"].s))])
  }

  /** One pass with the numbering left out: the item with its tokens when it is
      kept, nothing when it is not, or the exception. */
  function Outcome(nz: Normalizer, lib: DateLib, item: Json): Result<Option<Json>, PyError> {
    match Condition(lib, item)
    case Failure(e) => Failure(e)
    case Success(false) => Success(None)
    case Success(true) =>
      match WithTokens(nz, item.fields)
      case Failure(e) => Failure(e)
      case Success(f) => Success(Some(JObj(f)))
  }

  function Outcomes(nz: Normalizer, lib: DateLib, data: seq<Json>): seq<Result<Option<Json>, PyError>> {
    seq(|data|, i requires 0 <= i < |data| => Outcome(nz, lib, data[i]))
  }

  /** `item['index'] = k` on the `k`-th kept item. */
  function Numbered(kept: seq<Json>): seq<Json> {
    seq(|kept|, k requires 0 <= k < |kept| =>
      if kept[k].JObj? then JObj(kept[k].fields["index" := JNumber(k)]) else kept[k])
  }

  /** `filtered` of one file, or the exception that ends the script. */
  function FilteredItems(nz: Normalizer, lib: DateLib, data: seq<Json>): Result<seq<Json>, PyError> {
    match Gather(Outcomes(nz, lib, data))
    case Failure(e) => Failure(e)
    case Success(kept) => Success(Numbered(kept))
  }

  /** The kept item as the loop leaves it: numbered first, then given its tokens. */
  function Tagged(nz: Normalizer, item: Json, k: nat): Json
    requires item.JObj? && "Abstract" in item.fields && item.fields["Abstract"].JStr?
  {
    JObj(item.fields["index" := JNumber(k)]["tokens" := JStr(Preprocess(nz, item.fields["Abstract"].s))])
  }

  lemma NumberedAppend(kept: seq<Json>, fields: map<string, Json>)
    ensures Numbered(kept + [JObj(fields)]) == Numbered(kept) + [JObj(fields["index" := JNumber(|kept|)])]
  {
  }

  /** Numbering an item before giving it its tokens is giving it its tokens, then numbering it. */
  lemma WithTokensAfterIndex(nz: Normalizer, fields: map<string, Json>, k: nat)
    ensures WithTokens(nz, fields["index" := JNumber(k)]).Failure? <==> WithTokens(nz, fields).Failure?
    ensures WithTokens(nz, fields).Failure? ==>
              WithTokens(nz, fields["index" := JNumber(k)]).error == WithTokens(nz, fields).error
    ensures WithTokens(nz, fields).Success? ==>
              WithTokens(nz, fields["index" := JNumber(k)]).value == WithTokens(nz, fields).value["index" := JNumber(k)]
  {
    if "Abstract" in fields && fields["Abstract"].JStr? {
      var t := JStr(Preprocess(nz, fields["Abstract"].s));
      assert fields["index" := JNumber(k)]["tokens" := t] == fields["tokens" := t]["index" := JNumber(k)];
    }
  }

  /** The loop `for item in data` with its counter `idx`, which starts at 0
      for every file. */
  method FilterAndIndex(nz: Normalizer, lib: DateLib, data: seq<Json>) returns (r: Result<seq<Json>, PyError>, idx: nat)
    ensures r == FilteredItems(nz, lib, data)
    ensures r.Success? ==> idx == |r.value|
  {
    ghost var outs := Outcomes(nz, lib, data);
    ghost var kept: seq<Json> := [];
    var filtered: seq<Json> := [];
    idx := 0;
    for i := 0 to |data|
      invariant Gather(outs[..i]) == Success(kept)
      invariant filtered == Numbered(kept) && idx == |kept|
    {
      assert outs[..i + 1][..i] == outs[..i];
      assert outs[i] == Outcome(nz, lib, data[i]);
      var item := data[i];
      var cond := Condition(lib, item);
      if cond.Failure? {
        r := Failure(cond.error);
        GatherFailsAt(outs, i);
        return;
      }
      if cond.value {
        var withIndex := item.fields["index" := JNumber(idx)];
        var tokens := WithTokens(nz, withIndex);
        WithTokensAfterIndex(nz, item.fields, idx);
        if tokens.Failure? {
          r := Failure(tokens.error);
          GatherFailsAt(outs, i);
          return;
        }
        NumberedAppend(kept, WithTokens(nz, item.fields).value);
        filtered := filtered + [JObj(tokens.value)];
        kept := kept + [JObj(WithTokens(nz, item.fields).value)];
        idx := idx + 1;
      }
    }
    assert outs[..|data|] == outs;
    r := Success(filtered);
  }

  // ---------------------------------------------------------------------------
  // What the loop keeps
  // ---------------------------------------------------------------------------

  /** A valid item the loop cannot give tokens to. */
  predicate Breaks(lib: DateLib, item: Json) {
    Valid(lib, item)
    && ("Abstract" !in item.fields || !item.fields["Abstract"].JStr?)
  }

  /** The loop raises exactly when some item makes the condition raise or is
      valid without a string Abstract. */
  lemma FilteredFailsIff(nz: Normalizer, lib: DateLib, data: seq<Json>)
    ensures FilteredItems(nz, lib, data).Failure? <==>
              exists i :: 0 <= i < |data| && (Condition(lib, data[i]).Failure? || Breaks(lib, data[i]))
  {
    var outs := Outcomes(nz, lib, data);
    GatherFailsIff(outs);
    forall i | 0 <= i < |data|
      ensures outs[i].Failure? <==> Condition(lib, data[i]).Failure? || Breaks(lib, data[i])
    {
      ConditionMeaning(lib, data[i]);
    }
  }

  /** The kept items are exactly the valid items, in input order: item `k` is
      input item `pos[k]`, numbered `k` and given the tokens of its abstract,
      and otherwise unchanged; every valid item is among them, so no more
      items are kept than there are. */
  lemma FilteredExactlyValid(nz: Normalizer, lib: DateLib, data: seq<Json>) returns (pos: seq<nat>)
    requires FilteredItems(nz, lib, data).Success?
    ensures var r := FilteredItems(nz, lib, data).value;
            && |pos| == |r| <= |data| && StrictlyIncreasing(pos)
            && (forall k :: 0 <= k < |pos| ==>
                  pos[k] < |data| && Valid(lib, data[pos[k]]) && !Breaks(lib, data[pos[k]])
                  && r[k] == Tagged(nz, data[pos[k]], k))
            && (forall i :: 0 <= i < |data| && Valid(lib, data[i]) ==> i in pos)
  {
    var outs := Outcomes(nz, lib, data);
    var kept := Gather(outs).value;
    var r := FilteredItems(nz, lib, data).value;
    pos := GatherInOrder(outs);
    GatherFailsIff(outs);
    forall i | 0 <= i < |data|
      ensures outs[i] == Outcome(nz, lib, data[i])
      ensures Condition(lib, data[i]) == Success(true) <==> Valid(lib, data[i])
    {
      ConditionMeaning(lib, data[i]);
    }
    forall k | 0 <= k < |pos|
      ensures Valid(lib, data[pos[k]]) && !Breaks(lib, data[pos[k]]) && r[k] == Tagged(nz, data[pos[k]], k)
    {
      var item := data[pos[k]];
      assert outs[pos[k]] == Success(Some(kept[k]));
      var f := item.fields["tokens" := JStr(Preprocess(nz, item.fields["Abstract"].s))];
      assert kept[k] == JObj(f);
      assert f["index" := JNumber(k)] == Tagged(nz, item, k).fields;
    }
  }

  /** The kept items carry the numbers 0, 1, ..., n - 1 in order. */
  lemma FilteredIndices(nz: Normalizer, lib: DateLib, data: seq<Json>)
    requires FilteredItems(nz, lib, data).Success?
    ensures var r := FilteredItems(nz, lib, data).value;
            forall k :: 0 <= k < |r| ==> r[k].JObj? && r[k].fields["index"] == JNumber(k)
  {
    var r := FilteredItems(nz, lib, data).value;
    var pos := FilteredExactlyValid(nz, lib, data);
    forall k | 0 <= k < |r| ensures r[k].JObj? && r[k].fields["index"] == JNumber(k) {
      assert r[k] == Tagged(nz, data[pos[k]], k);
    }
  }

  // ---------------------------------------------------------------------------
  // One file and the folder loop
  // ---------------------------------------------------------------------------

  /** What the script writes for an input file, or the exception. */
  function FixedFile(nz: Normalizer, lib: DateLib, inputs: map<string, JsonFile>, path: string): Result<seq<Json>, PyError> {
    match LoadJson(inputs, path)
    case Failure(e) => Failure(e)
    case Success(data) => if data.JArr? then FilteredItems(nz, lib, data.items) else Failure(NotAnArray)
  }

  function InputPath(filename: string): string {
    PathJoin(INPUT_FOLDER, filename)
  }

  /** The output file has the input file's name. */
  function OutputPath(filename: string): string {
    PathJoin(OUTPUT_FOLDER, filename)
  }

  predicate Processed(filename: string) {
    EndsWith(filename, ".json")
  }

  /** The body of the folder loop for one `.json` name: load, filter and index,
      and write the kept items as a JSON array to the file of that name in the
      output folder; an exception writes nothing. */
  method FixFile(nz: Normalizer, lib: DateLib, inputs: map<string, JsonFile>, outputs: map<string, Json>, filename: string)
    returns (next: map<string, Json>, error: Option<PyError>)
    ensures FixedFile(nz, lib, inputs, InputPath(filename)).Success? ==>
              error.None? && next == outputs[OutputPath(filename) := JArr(FixedFile(nz, lib, inputs, InputPath(filename)).value)]
    ensures FixedFile(nz, lib, inputs, InputPath(filename)).Failure? ==>
              error == Some(FixedFile(nz, lib, inputs, InputPath(filename)).error) && next == outputs
  {
    var loaded := LoadJson(inputs, InputPath(filename));
    if loaded.Failure? {
      return outputs, Some(loaded.error);
    }
    if !loaded.value.JArr? {
      return outputs, Some(NotAnArray);
    }
    var filtered, idx := FilterAndIndex(nz, lib, loaded.value.items);
    if filtered.Failure? {
      return outputs, Some(filtered.error);
    }
    next, error := outputs[OutputPath(filename) := JArr(filtered.value)], None;
  }

  /** Names as `os.listdir` gives them: no name twice and no '/' in a name. */
  predicate Listing(names: seq<string>) {
    NoDuplicates(names) && forall i :: 0 <= i < |names| ==> '/' !in names[i]
  }

  lemma OutputPathsDistinct(a: string, b: string)
    requires Processed(a) && Processed(b) && '/' !in a && '/' !in b && a != b
    ensures OutputPath(a) != OutputPath(b)
  {
    if OutputPath(a) == OutputPath(b) {
      assert a[0] in a && b[0] in b;
      PathJoinInjective(OUTPUT_FOLDER, a, b);
    }
  }

  /** Sorting keeps a listing a listing. */
  lemma SortedListing(listing: seq<string>)
    requires Listing(listing)
    ensures Listing(Sorted(listing))
  {
    var names := Sorted(listing);
    SortedNoDuplicates(listing);
    forall j | 0 <= j < |names| ensures '/' !in names[j] {
      assert names[j] in multiset(listing);
    }
  }

  /** What the script writes for each file name, or the exception it raises there. */
  function Yield(nz: Normalizer, lib: DateLib, inputs: map<string, JsonFile>): string -> Result<seq<Json>, PyError> {
    name => FixedFile(nz, lib, inputs, InputPath(name))
  }

  /** After the first `n` of the sorted names, every `.json` one has its output file. */
  predicate Written(names: seq<string>, final: map<string, Json>, n: nat)
    requires n <= |names|
  {
    forall j :: 0 <= j < n && Processed(names[j]) ==> OutputPath(names[j]) in final
  }

  /** ... and, when the names form a real listing (so that no two of them share
      an output file), that file holds what the name's input yields. */
  predicate Faithful(outcome: string -> Result<seq<Json>, PyError>, names: seq<string>, final: map<string, Json>, n: nat)
    requires n <= |names|
  {
    Listing(names) ==>
      forall j :: 0 <= j < n && Processed(names[j]) ==>
        outcome(names[j]).Success? && OutputPath(names[j]) in final
        && final[OutputPath(names[j])] == JArr(outcome(names[j]).value)
  }

  /** Output files that existed before are still there, and those no name writes are unchanged. */
  predicate Untouched(outputs: map<string, Json>, names: seq<string>, final: map<string, Json>) {
    && outputs.Keys <= final.Keys
    && forall p :: p in outputs && (forall j :: 0 <= j < |names| ==> p != OutputPath(names[j])) ==> final[p] == outputs[p]
  }

  /** The state of the output folder after the first `n` of the sorted names. */
  predicate Progress(outcome: string -> Result<seq<Json>, PyError>, outputs: map<string, Json>,
                     names: seq<string>, final: map<string, Json>, n: nat)
    requires n <= |names|
  {
    Written(names, final, n) && Faithful(outcome, names, final, n) && Untouched(outputs, names, final)
  }

  lemma FaithfulStep(outcome: string -> Result<seq<Json>, PyError>, names: seq<string>,
                     before: map<string, Json>, after: map<string, Json>, i: nat)
    requires i < |names| && Faithful(outcome, names, before, i)
    requires Processed(names[i]) && outcome(names[i]).Success?
    requires after == before[OutputPath(names[i]) := JArr(outcome(names[i]).value)]
    ensures Faithful(outcome, names, after, i + 1)
  {
    if Listing(names) {
      forall j | 0 <= j < i && Processed(names[j]) ensures OutputPath(names[j]) != OutputPath(names[i]) {
        OutputPathsDistinct(names[j], names[i]);
      }
    }
  }

  /** One more name: a non-`.json` name changes nothing, a `.json` name writes its own output file. */
  lemma ProgressStep(outcome: string -> Result<seq<Json>, PyError>, outputs: map<string, Json>,
                     names: seq<string>, before: map<string, Json>, after: map<string, Json>, i: nat)
    requires i < |names| && Progress(outcome, outputs, names, before, i)
    requires if Processed(names[i]) then
               outcome(names[i]).Success? && after == before[OutputPath(names[i]) := JArr(outcome(names[i]).value)]
             else after == before
    ensures Progress(outcome, outputs, names, after, i + 1)
  {
    if Processed(names[i]) {
      FaithfulStep(outcome, names, before, after, i);
    }
  }

  /** The loop over a given sequence of names: `.json` names only; an
      exception ends the run. A complete run leaves every name processed; after
      an exception, it is the exception of the first failing `.json` name (at
      position `failedAt`), and every name before it is processed. */
  method FixEach(nz: Normalizer, lib: DateLib, inputs: map<string, JsonFile>, outputs: map<string, Json>, names: seq<string>)
    returns (final: map<string, Json>, error: Option<PyError>, ghost failedAt: nat)
    ensures error.None? ==> Progress(Yield(nz, lib, inputs), outputs, names, final, |names|)
    ensures error.Some? ==>
              && failedAt < |names| && Processed(names[failedAt])
              && FixedFile(nz, lib, inputs, InputPath(names[failedAt])).Failure?
              && error == Some(FixedFile(nz, lib, inputs, InputPath(names[failedAt])).error)
              && Progress(Yield(nz, lib, inputs), outputs, names, final, failedAt)
  {
    final, failedAt := outputs, 0;
    for i := 0 to |names|
      invariant Progress(Yield(nz, lib, inputs), outputs, names, final, i)
    {
      var filename := names[i];
      ghost var before := final;
      assert Yield(nz, lib, inputs)(filename) == FixedFile(nz, lib, inputs, InputPath(filename));
      if EndsWith(filename, ".json") {
        var e;
        final, e := FixFile(nz, lib, inputs, final, filename);
        if e.Some? {
          error, failedAt := e, i;
          assert Processed(names[i]) && Progress(Yield(nz, lib, inputs), outputs, names, final, i);
          return;
        }
      }
      ProgressStep(Yield(nz, lib, inputs), outputs, names, before, final, i);
    }
    error := None;
  }

  /** The main loop of the script: the names of the input folder in sorted
      order (a real listing stays one when sorted, SortedListing). */
  method FixFolder(nz: Normalizer, lib: DateLib, inputs: map<string, JsonFile>, outputs: map<string, Json>, listing: seq<string>)
    returns (final: map<string, Json>, error: Option<PyError>, ghost failedAt: nat)
    ensures var names := Sorted(listing);
            error.None? ==> Progress(Yield(nz, lib, inputs), outputs, names, final, |names|)
    ensures var names := Sorted(listing);
            error.Some? ==>
              && failedAt < |names| && Processed(names[failedAt])
              && FixedFile(nz, lib, inputs, InputPath(names[failedAt])).Failure?
              && error == Some(FixedFile(nz, lib, inputs, InputPath(names[failedAt])).error)
              && Progress(Yield(nz, lib, inputs), outputs, names, final, failedAt)
  {
    var names := Sorted(listing);
    final, error, failedAt := FixEach(nz, lib, inputs, outputs, names);
  }
}
