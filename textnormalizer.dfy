/**
 * `preprocess_text`, which text_cleaner.py and fix_files.py define alike:
 * lower-case, blank out everything but a-z and whitespace, tokenise, drop
 * stop words and short tokens, and join what is left with single spaces.
 * NLTK's tokeniser and English stop-word list are parameters.
 */
module TextNormalizer {
  import opened PyStr
  import opened Loops

  /** The two NLTK services: `word_tokenize` and `stopwords.words('english')`. */
  datatype Normalizer = Normalizer(tokenize: string -> seq<string>, english: set<string>)

  /** The words both scripts add to NLTK's English list. */
  const EXTRA_STOPWORDS: set<string> := {"et", "al", "figure", "table", "doi", "preprint", "copyright"}

  /** `stop_words`: the English list updated with the extra words. */
  function StopWords(nz: Normalizer): set<string> {
    nz.english + EXTRA_STOPWORDS
  }

  /** One character of `re.sub(r'[^a-z\s]', ' ', text)`. */
  function MaskChar(c: char): char {
    if 'a' <= c <= 'z' || IsSpace(c) then c else ' '
  }

  /** `re.sub(r'[^a-z\s]', ' ', text)`: each character outside the class becomes one blank. */
  function Mask(s: string): (r: string)
    ensures |r| == |s|
  {
    seq(|s|, i requires 0 <= i < |s| => MaskChar(s[i]))
  }

  /** The text handed to the tokeniser. */
  function Masked(text: string): string {
    Mask(Lower(text))
  }

  /** The condition of the comprehension: not a stop word and longer than two characters. */
  function KeepToken(stop: set<string>): string -> bool {
    t => t !in stop && |t| > 2
  }

  /** The tokens `preprocess_text` keeps, in order. */
  function Tokens(nz: Normalizer, text: string): seq<string> {
    Filter(KeepToken(StopWords(nz)), nz.tokenize(Masked(text)))
  }

  /** `preprocess_text(text)`. */
  function Preprocess(nz: Normalizer, text: string): string {
    Join(" ", Tokens(nz, text))
  }

  // ---------------------------------------------------------------------------
  // Properties
  // ---------------------------------------------------------------------------

  /** After the regular expression the text holds only a-z and whitespace, one
      character per input character: ASCII letters become their lower-case
      form, whitespace stays, everything else is a blank. */
  lemma MaskedAlphabet(text: string)
    ensures var m := Masked(text);
            && |m| == |text|
            && (forall i :: 0 <= i < |m| ==> 'a' <= m[i] <= 'z' || IsSpace(m[i]))
            && (forall i :: 0 <= i < |m| ==>
                  ('a' <= m[i] <= 'z' <==> 'a' <= text[i] <= 'z' || 'A' <= text[i] <= 'Z'))
            && (forall i :: 0 <= i < |m| && IsSpace(text[i]) ==> m[i] == text[i])
  {
  }

  /** Every kept token is longer than two characters and is neither an English
      stop word nor one of the extra ones. */
  lemma TokensValid(nz: Normalizer, text: string)
    ensures forall k :: 0 <= k < |Tokens(nz, text)| ==>
              var t := Tokens(nz, text)[k];
              |t| > 2 && t !in nz.english && t !in EXTRA_STOPWORDS
  {
    FilterKeeps(KeepToken(StopWords(nz)), nz.tokenize(Masked(text)));
  }

  /** The kept tokens are the tokeniser's output with the rejected tokens
      removed: token `k` is the tokeniser's token `pos[k]`, in increasing
      order, and no token that passes the test is missing. */
  lemma TokensInOrder(nz: Normalizer, text: string) returns (pos: seq<nat>)
    ensures var toks := nz.tokenize(Masked(text));
            var kept := Tokens(nz, text);
            && |pos| == |kept| <= |toks| && StrictlyIncreasing(pos)
            && (forall k :: 0 <= k < |pos| ==> pos[k] < |toks| && toks[pos[k]] == kept[k])
            && (forall i :: 0 <= i < |toks| && toks[i] !in StopWords(nz) && |toks[i]| > 2 ==> i in pos)
  {
    pos := FilterInOrder(KeepToken(StopWords(nz)), nz.tokenize(Masked(text)));
    FilterKeeps(KeepToken(StopWords(nz)), nz.tokenize(Masked(text)));
  }

  /** A token holds no whitespace, as the tokens of a tokeniser that splits on whitespace. */
  predicate Word(t: string) {
    forall i :: 0 <= i < |t| ==> !IsSpace(t[i])
  }

  predicate TokenizerSplitsOnSpace(nz: Normalizer, text: string) {
    forall k :: 0 <= k < |nz.tokenize(Masked(text))| ==> Word(nz.tokenize(Masked(text))[k])
  }

  /** With whitespace-free tokens, splitting the result on ' ' gives back the
      kept tokens, and the result is empty exactly when nothing was kept. */
  lemma PreprocessSplit(nz: Normalizer, text: string)
    requires TokenizerSplitsOnSpace(nz, text)
    ensures Preprocess(nz, text) == "" <==> Tokens(nz, text) == []
    ensures Tokens(nz, text) != [] ==> Split(Preprocess(nz, text), ' ') == Tokens(nz, text)
  {
    var toks := nz.tokenize(Masked(text));
    var kept := Tokens(nz, text);
    var pos := TokensInOrder(nz, text);
    TokensValid(nz, text);
    forall k | 0 <= k < |kept| ensures ' ' !in kept[k] {
      assert Word(toks[pos[k]]);
    }
    JoinSpaceEmpty(kept);
    if kept != [] {
      SplitJoin(kept, ' ');
    }
  }

  /** With whitespace-free tokens, `preprocess_text(text).strip()` is blank
      exactly when no token was kept. */
  lemma PreprocessBlank(nz: Normalizer, text: string)
    requires TokenizerSplitsOnSpace(nz, text)
    ensures Strip(Preprocess(nz, text)) == "" <==> Tokens(nz, text) == []
  {
    var toks := nz.tokenize(Masked(text));
    var kept := Tokens(nz, text);
    if kept != [] {
      var pos := TokensInOrder(nz, text);
      TokensValid(nz, text);
      assert Word(toks[pos[0]]);
      JoinHead(" ", kept);
      assert !IsSpace(Preprocess(nz, text)[0]);
    }
  }

  /** With whitespace-free tokens the result is one line: it holds no newline. */
  lemma PreprocessOneLine(nz: Normalizer, text: string)
    requires TokenizerSplitsOnSpace(nz, text)
    ensures '\n' !in Preprocess(nz, text)
  {
    var toks := nz.tokenize(Masked(text));
    var kept := Tokens(nz, text);
    var pos := TokensInOrder(nz, text);
    forall k | 0 <= k < |kept| ensures '\n' !in kept[k] {
      assert Word(toks[pos[k]]);
      assert IsSpace('\n');
    }
    JoinWithout(" ", kept, '\n');
  }
}
