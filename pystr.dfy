/**
 * The parts of Python's `str` type, `os.path` and `sorted` that the pipeline
 * scripts rely on, written out over `seq<char>` (a Dafny char is a Unicode
 * scalar value, as a Python `str` element is a code point).
 */
module PyStr {

  // ---------------------------------------------------------------------------
  // Whitespace and strip()
  // ---------------------------------------------------------------------------

  /** The characters for which Python's `str.isspace()` holds; `str.strip()` and
      the `\s` class of the `re` module both use this set. */
  predicate IsSpace(c: char) {
    var n := c as int;
    n == 0x20 || (0x09 <= n <= 0x0d) || (0x1c <= n <= 0x1f) || n == 0x85 || n == 0xa0
    || n == 0x1680 || (0x2000 <= n <= 0x200a) || n == 0x2028 || n == 0x2029
    || n == 0x202f || n == 0x205f || n == 0x3000
  }

  predicate AllSpace(s: string) {
    forall i :: 0 <= i < |s| ==> IsSpace(s[i])
  }

  /** Neither end of `s` is whitespace. */
  predicate IsStripped(s: string) {
    s == [] || (!IsSpace(s[0]) && !IsSpace(s[|s| - 1]))
  }

  /** `s.lstrip()`: the longest suffix of `s` that does not start with whitespace. */
  function StripLeft(s: string): (r: string)
    ensures |r| <= |s| && r == s[|s| - |r|..]
    ensures r == [] || !IsSpace(r[0])
    ensures forall i :: 0 <= i < |s| - |r| ==> IsSpace(s[i])
  {
    if s != [] && IsSpace(s[0]) then StripLeft(s[1..]) else s
  }

  /** `s.rstrip()`: the longest prefix of `s` that does not end with whitespace. */
  function StripRight(s: string): (r: string)
    ensures |r| <= |s| && r == s[..|r|]
    ensures r == [] || !IsSpace(r[|r| - 1])
    ensures forall i :: |r| <= i < |s| ==> IsSpace(s[i])
  {
    if s != [] && IsSpace(s[|s| - 1]) then StripRight(s[..|s| - 1]) else s
  }

  /** `s.strip()`. */
  function Strip(s: string): (r: string)
    ensures IsStripped(r) && |r| <= |s|
    ensures r == [] <==> AllSpace(s)
    ensures IsStripped(s) ==> r == s
  {
    var l := StripLeft(s);
    var r := StripRight(l);
    assert r != [] ==> !IsSpace(r[0]) by {
      if r != [] { assert r[0] == l[0]; }
    }
    r
  }

  /** Stripping a leading or trailing blank off an already stripped word. */
  lemma StripAroundWord(x: string)
    requires IsStripped(x) && x != ""
    ensures Strip(" " + x) == x && Strip(x + " ") == x
  {
    assert (" " + x)[1..] == x;
    assert StripLeft(" " + x) == x;
    var y := x + " ";
    assert y[..|y| - 1] == x;
    assert StripLeft(y) == y;
    assert StripRight(y) == x;
  }

  // ---------------------------------------------------------------------------
  // join(), split() and the newline-terminated lines written by a write loop
  // ---------------------------------------------------------------------------

  /** `sep.join(xs)`. */
  function Join(sep: string, xs: seq<string>): string
    decreases |xs|
  {
    if xs == [] then ""
    else if |xs| == 1 then xs[0]
    else xs[0] + sep + Join(sep, xs[1..])
  }

  /** A `' '`-join is empty exactly when there is nothing to join, or one empty piece. */
  lemma {:induction false} JoinSpaceEmpty(xs: seq<string>)
    ensures Join(" ", xs) == "" <==> xs == [] || xs == [""]
  {
    if |xs| > 1 {
      assert |Join(" ", xs)| >= |xs[0] + " "|;
    }
  }

  lemma JoinTwo(sep: string, a: string, b: string)
    ensures Join(sep, [a, b]) == a + sep + b
  {
    assert [a, b][1..] == [b];
  }

  lemma JoinThree(sep: string, a: string, b: string, c: string)
    ensures Join(sep, [a, b, c]) == a + sep + (b + sep + c)
  {
    assert [a, b, c][1..] == [b, c];
    JoinTwo(sep, b, c);
  }

  /** A join starts with its first piece. */
  lemma JoinHead(sep: string, xs: seq<string>)
    requires xs != [] && xs[0] != ""
    ensures Join(sep, xs) != "" && Join(sep, xs)[0] == xs[0][0]
  {
  }

  /** A character in neither the separator nor any piece is not in the join. */
  lemma {:induction false} JoinWithout(sep: string, xs: seq<string>, c: char)
    requires c !in sep && forall k :: 0 <= k < |xs| ==> c !in xs[k]
    ensures c !in Join(sep, xs)
    decreases |xs|
  {
    if |xs| > 1 {
      JoinWithout(sep, xs[1..], c);
    }
  }

  /** `s.split(c)` for a one-character separator: the pieces between the occurrences of `c`. */
  function Split(s: string, c: char): (r: seq<string>)
    ensures |r| >= 1
    decreases |s|
  {
    if s == [] then [""]
    else
      var rest := Split(s[1..], c);
      if s[0] == c then [""] + rest else [[s[0]] + rest[0]] + rest[1..]
  }

  lemma {:induction false} SplitNoSeparator(x: string, c: char)
    requires c !in x
    ensures Split(x, c) == [x]
    decreases |x|
  {
    if x != [] {
      SplitNoSeparator(x[1..], c);
      assert [x[0]] + x[1..] == x;
    }
  }

  lemma {:induction false} SplitAfterPiece(x: string, c: char, t: string)
    requires c !in x
    ensures Split(x + [c] + t, c) == [x] + Split(t, c)
    decreases |x|
  {
    var s := x + [c] + t;
    if x == [] {
      assert s[1..] == t;
    } else {
      assert s[1..] == x[1..] + [c] + t;
      SplitAfterPiece(x[1..], c, t);
      assert [x[0]] + x[1..] == x;
    }
  }

  /** Splitting a join on the same one-character separator gives back the pieces,
      provided there is at least one piece and no piece holds the separator. */
  lemma {:induction false} SplitJoin(xs: seq<string>, c: char)
    requires xs != []
    requires forall k :: 0 <= k < |xs| ==> c !in xs[k]
    ensures Split(Join([c], xs), c) == xs
    decreases |xs|
  {
    if |xs| == 1 {
      SplitNoSeparator(xs[0], c);
    } else {
      SplitJoin(xs[1..], c);
      SplitAfterPiece(xs[0], c, Join([c], xs[1..]));
      assert [xs[0]] + xs[1..] == xs;
    }
  }

  /** The text of a loop that writes `doc + '\n'` for every doc. */
  function Lines(docs: seq<string>): string
    decreases |docs|
  {
    if docs == [] then "" else docs[0] + "\n" + Lines(docs[1..])
  }

  /** Writing one more doc appends it and its newline. */
  lemma {:induction false} LinesAppend(docs: seq<string>, doc: string)
    ensures Lines(docs + [doc]) == Lines(docs) + (doc + "\n")
    decreases |docs|
  {
    if docs == [] {
      assert docs + [doc] == [doc];
    } else {
      assert (docs + [doc])[1..] == docs[1..] + [doc];
      LinesAppend(docs[1..], doc);
    }
  }

  function CountChar(s: string, c: char): nat
    decreases |s|
  {
    if s == [] then 0 else (if s[0] == c then 1 else 0) + CountChar(s[1..], c)
  }

  lemma {:induction false} CountCharAppend(a: string, b: string, c: char)
    ensures CountChar(a + b, c) == CountChar(a, c) + CountChar(b, c)
    decreases |a|
  {
    if a == [] {
      assert a + b == b;
    } else {
      assert (a + b)[0] == a[0] && (a + b)[1..] == a[1..] + b;
      CountCharAppend(a[1..], b, c);
    }
  }

  lemma {:induction false} CountCharAbsent(a: string, c: char)
    requires c !in a
    ensures CountChar(a, c) == 0
    decreases |a|
  {
    if a != [] { CountCharAbsent(a[1..], c); }
  }

  /** Docs without a newline of their own come back from `split('\n')` of the
      written text, followed by the empty piece after the final newline, and the
      text holds exactly one newline per doc. */
  lemma {:induction false} LinesRoundTrip(docs: seq<string>)
    requires forall k :: 0 <= k < |docs| ==> '\n' !in docs[k]
    ensures Split(Lines(docs), '\n') == docs + [""]
    ensures CountChar(Lines(docs), '\n') == |docs|
    decreases |docs|
  {
    if docs != [] {
      LinesRoundTrip(docs[1..]);
      SplitAfterPiece(docs[0], '\n', Lines(docs[1..]));
      assert [docs[0]] + (docs[1..] + [""]) == docs + [""];
      CountCharAppend(docs[0] + "\n", Lines(docs[1..]), '\n');
      CountCharAppend(docs[0], "\n", '\n');
      CountCharAbsent(docs[0], '\n');
    }
  }

  // ---------------------------------------------------------------------------
  // Prefixes, suffixes, substrings and replace()
  // ---------------------------------------------------------------------------

  predicate StartsWith(s: string, prefix: string) {
    |prefix| <= |s| && s[..|prefix|] == prefix
  }

  predicate EndsWith(s: string, suffix: string) {
    |suffix| <= |s| && s[|s| - |suffix|..] == suffix
  }

  /** Python's `needle in hay` for two strings. */
  predicate Occurs(needle: string, hay: string)
    decreases |hay|
  {
    StartsWith(hay, needle) || (hay != [] && Occurs(needle, hay[1..]))
  }

  lemma {:induction false} OccursBetween(a: string, needle: string, b: string)
    ensures Occurs(needle, a + needle + b)
    decreases |a|
  {
    var s := a + needle + b;
    if a == [] {
      assert s[..|needle|] == needle;
    } else {
      assert s[1..] == a[1..] + needle + b;
      OccursBetween(a[1..], needle, b);
    }
  }

  /** `s.replace("", rep)`: `rep` before every character and at the end. */
  function ReplaceEmpty(s: string, rep: string): string
    decreases |s|
  {
    if s == [] then rep else rep + [s[0]] + ReplaceEmpty(s[1..], rep)
  }

  /** `s.replace(pat, rep)`: every occurrence of `pat`, found left to right
      without overlap, replaced by `rep`. */
  function Replace(s: string, pat: string, rep: string): string
    decreases |s|
  {
    if pat == [] then ReplaceEmpty(s, rep)
    else if |s| < |pat| then s
    else if s[..|pat|] == pat then rep + Replace(s[|pat|..], pat, rep)
    else [s[0]] + Replace(s[1..], pat, rep)
  }

  /** A prefix holding no character that can start the pattern is copied unchanged. */
  lemma {:induction false} ReplaceSkip(s: string, pat: string, rep: string, n: nat)
    requires pat != [] && n <= |s|
    requires forall i :: 0 <= i < n ==> s[i] != pat[0]
    ensures Replace(s, pat, rep) == s[..n] + Replace(s[n..], pat, rep)
    decreases n
  {
    if n == 0 {
      assert s[..0] + s[0..] == s;
    } else if |s| < |pat| {
      assert Replace(s[n..], pat, rep) == s[n..];
      assert s[..n] + s[n..] == s;
    } else {
      var t := s[1..];
      assert s[..|pat|][0] == s[0];
      assert Replace(s, pat, rep) == [s[0]] + Replace(t, pat, rep);
      forall i | 0 <= i < n - 1 ensures t[i] != pat[0] {
        assert t[i] == s[i + 1];
      }
      ReplaceSkip(t, pat, rep, n - 1);
      assert t[n - 1..] == s[n..];
      var head, rest := t[..n - 1], Replace(s[n..], pat, rep);
      assert [s[0]] + head == s[..n];
      ConcatAssoc([s[0]], head, rest);
    }
  }

  lemma ConcatAssoc<T>(a: seq<T>, b: seq<T>, c: seq<T>)
    ensures a + (b + c) == (a + b) + c
  {
  }

  lemma ReplaceAtStart(pat: string, rep: string, t: string)
    requires pat != []
    ensures Replace(pat + t, pat, rep) == rep + Replace(t, pat, rep)
  {
    var s := pat + t;
    assert s[..|pat|] == pat && s[|pat|..] == t;
  }

  /** Removing a pattern never lengthens the string. */
  lemma {:induction false} ReplaceByEmptyShortens(s: string, pat: string)
    requires pat != []
    ensures |Replace(s, pat, "")| <= |s|
    decreases |s|
  {
    if |s| >= |pat| {
      if s[..|pat|] == pat {
        ReplaceByEmptyShortens(s[|pat|..], pat);
      } else {
        ReplaceByEmptyShortens(s[1..], pat);
      }
    }
  }

  /** Replacing in a string whose head never holds the pattern's first character
      only touches the tail. */
  lemma ReplaceAfterPlain(head: string, tail: string, pat: string, rep: string)
    requires pat != []
    requires forall i :: 0 <= i < |head| ==> head[i] != pat[0]
    ensures Replace(head + tail, pat, rep) == head + Replace(tail, pat, rep)
  {
    var s := head + tail;
    ReplaceSkip(s, pat, rep, |head|);
    assert s[..|head|] == head && s[|head|..] == tail;
  }

  /** No proper suffix of `pat` is also a prefix of it, so two occurrences never overlap. */
  predicate NoSelfOverlap(pat: string) {
    forall k :: 0 < k < |pat| ==> pat[k..] != pat[..|pat| - k]
  }

  /** A string shorter than twice a pattern that starts and ends with it shows a
      proper suffix of the pattern that is also a prefix. */
  lemma OverlappingOccurrences(s: string, pat: string)
    requires StartsWith(s, pat) && EndsWith(s, pat) && |pat| < |s| < 2 * |pat|
    ensures var k := |s| - |pat|; pat[k..] == pat[..|pat| - k]
  {
    var k := |s| - |pat|;
    assert pat[k..] == s[k..|pat|];
    assert s[k..|pat|] == s[|s| - |pat|..][..|pat| - k];
  }

  /** A string that ends with a pattern that cannot overlap itself still ends
      with the replacement after `replace`: the final occurrence is always replaced. */
  lemma {:induction false} ReplaceKeepsSuffix(s: string, pat: string, rep: string)
    requires pat != [] && NoSelfOverlap(pat) && EndsWith(s, pat)
    ensures EndsWith(Replace(s, pat, rep), rep)
    decreases |s|
  {
    if s[..|pat|] == pat {
      var t := s[|pat|..];
      if t == [] {
        assert Replace(s, pat, rep) == rep;
      } else if |t| < |pat| {
        OverlappingOccurrences(s, pat);
        assert false;
      } else {
        assert t[|t| - |pat|..] == s[|s| - |pat|..];
        ReplaceKeepsSuffix(t, pat, rep);
        var r := Replace(t, pat, rep);
        assert (rep + r)[|rep + r| - |rep|..] == r[|r| - |rep|..];
      }
    } else {
      assert |s| > |pat|;
      var t := s[1..];
      assert t[|t| - |pat|..] == s[|s| - |pat|..];
      ReplaceKeepsSuffix(t, pat, rep);
      var r := Replace(t, pat, rep);
      assert ([s[0]] + r)[|[s[0]] + r| - |rep|..] == r[|r| - |rep|..];
    }
  }

  /** A string in which the pattern's first character never appears is left as it is. */
  lemma ReplaceAbsent(s: string, pat: string, rep: string)
    requires pat != []
    requires forall i :: 0 <= i < |s| ==> s[i] != pat[0]
    ensures Replace(s, pat, rep) == s
  {
    ReplaceSkip(s, pat, rep, |s|);
    assert s[..|s|] == s;
  }

  // ---------------------------------------------------------------------------
  // ASCII lower-casing
  // ---------------------------------------------------------------------------

  function LowerChar(c: char): (r: char)
    ensures !('A' <= r <= 'Z')
    ensures 'a' <= r <= 'z' <==> ('a' <= c <= 'z' || 'A' <= c <= 'Z')
    ensures !('A' <= c <= 'Z') ==> r == c
  {
    if 'A' <= c <= 'Z' then (c as int + 32) as char else c
  }

  /** `s.lower()` restricted to the ASCII letters. */
  function Lower(s: string): (r: string)
    ensures |r| == |s|
    ensures forall i :: 0 <= i < |s| ==> r[i] == LowerChar(s[i])
  {
    seq(|s|, i requires 0 <= i < |s| => LowerChar(s[i]))
  }

  // ---------------------------------------------------------------------------
  // Decimal numerals: str(n) and zero padding f"{n:0>w}"
  // ---------------------------------------------------------------------------

  predicate IsDigit(c: char) {
    '0' <= c <= '9'
  }

  predicate AllDigits(s: string) {
    forall i :: 0 <= i < |s| ==> IsDigit(s[i])
  }

  function DigitChar(d: nat): (c: char)
    requires d < 10
    ensures IsDigit(c) && c as int - '0' as int == d
  {
    ('0' as int + d) as char
  }

  function DigitValue(c: char): nat
    requires IsDigit(c)
  {
    c as int - '0' as int
  }

  /** `str(n)` for a non-negative int. */
  function Decimal(n: nat): string
    decreases n
  {
    if n < 10 then [DigitChar(n)] else Decimal(n / 10) + [DigitChar(n % 10)]
  }

  /** `int(s)` for a string of digits; the inverse of Decimal. */
  function ParseDecimal(s: string): nat
    requires AllDigits(s)
    decreases |s|
  {
    if s == [] then 0 else 10 * ParseDecimal(s[..|s| - 1]) + DigitValue(s[|s| - 1])
  }

  /** `str(n)` is made of digits and reads back as `n`. */
  lemma {:induction false} DecimalRoundTrip(n: nat)
    ensures |Decimal(n)| >= 1 && AllDigits(Decimal(n)) && ParseDecimal(Decimal(n)) == n
    decreases n
  {
    if n >= 10 {
      DecimalRoundTrip(n / 10);
      var s := Decimal(n);
      assert s[..|s| - 1] == Decimal(n / 10);
    }
  }

  lemma DecimalInjective(m: nat, n: nat)
    requires Decimal(m) == Decimal(n)
    ensures m == n
  {
    DecimalRoundTrip(m);
    DecimalRoundTrip(n);
  }

  function Pow10(k: nat): nat {
    if k == 0 then 1 else 10 * Pow10(k - 1)
  }

  lemma {:induction false} DecimalLength(n: nat, k: nat)
    requires k >= 1 && n < Pow10(k)
    ensures |Decimal(n)| <= k
    decreases n
  {
    if n >= 10 {
      DecimalLength(n / 10, k - 1);
    }
  }

  function Repeat(c: char, k: nat): (r: string)
    ensures |r| == k && forall i :: 0 <= i < k ==> r[i] == c
  {
    seq(k, i => c)
  }

  /** `f"{s:0>width}"`: `s` right-aligned in a field of `width`, filled with '0'. */
  function ZeroPad(s: string, width: nat): (r: string)
    ensures |r| == if |s| >= width then |s| else width
    ensures EndsWith(r, s)
  {
    if |s| >= width then s else Repeat('0', width - |s|) + s
  }

  lemma {:induction false} ParseZeros(z: string)
    requires forall i :: 0 <= i < |z| ==> z[i] == '0'
    ensures AllDigits(z) && ParseDecimal(z) == 0
    decreases |z|
  {
    if z != [] { ParseZeros(z[..|z| - 1]); }
  }

  lemma {:induction false} ParseLeadingZeros(z: string, s: string)
    requires forall i :: 0 <= i < |z| ==> z[i] == '0'
    requires AllDigits(s)
    ensures AllDigits(z + s) && ParseDecimal(z + s) == ParseDecimal(s)
    decreases |s|
  {
    if s == [] {
      assert z + s == z;
      ParseZeros(z);
    } else {
      var t := z + s;
      assert t[..|t| - 1] == z + s[..|s| - 1];
      ParseLeadingZeros(z, s[..|s| - 1]);
    }
  }

  /** `f"{n:0>4}"`: four digits for 0 <= n <= 9999, read back as `n`. */
  function Pad4(n: nat): string {
    ZeroPad(Decimal(n), 4)
  }

  lemma Pad4RoundTrip(n: nat)
    requires n <= 9999
    ensures |Pad4(n)| == 4 && AllDigits(Pad4(n)) && ParseDecimal(Pad4(n)) == n
  {
    assert Pow10(4) == 10000;
    DecimalLength(n, 4);
    var d := Decimal(n);
    DecimalRoundTrip(n);
    if |d| < 4 {
      ParseLeadingZeros(Repeat('0', 4 - |d|), d);
    }
    DecimalRoundTrip(n);
  }

  lemma Pad4Injective(m: nat, n: nat)
    requires m <= 9999 && n <= 9999 && Pad4(m) == Pad4(n)
    ensures m == n
  {
    Pad4RoundTrip(m);
    Pad4RoundTrip(n);
  }

  // ---------------------------------------------------------------------------
  // os.path.basename and os.path.join (POSIX)
  // ---------------------------------------------------------------------------

  /** `os.path.basename(p)`: what follows the last '/'. */
  function Basename(p: string): (r: string)
    ensures '/' !in r && EndsWith(p, r)
    ensures |r| < |p| ==> p[|p| - |r| - 1] == '/'
    decreases |p|
  {
    if p == [] then []
    else if p[|p| - 1] == '/' then []
    else
      var r := Basename(p[..|p| - 1]) + [p[|p| - 1]];
      assert p[..|p| - 1][|p| - 1 - (|r| - 1)..] + [p[|p| - 1]] == p[|p| - |r|..];
      r
  }

  /** The basename of a name without '/' under some directory is that name. */
  lemma {:induction false} BasenameUnder(dir: string, name: string)
    requires '/' !in name
    ensures Basename(dir + "/" + name) == name
    decreases |name|
  {
    var p := dir + "/" + name;
    if name != [] {
      var init := name[..|name| - 1];
      assert p[..|p| - 1] == dir + "/" + init;
      BasenameUnder(dir, init);
      assert init + [name[|name| - 1]] == name;
    }
  }

  /** `os.path.join(a, b)` on POSIX. */
  function PathJoin(a: string, b: string): string {
    if StartsWith(b, "/") then b
    else if a == [] || EndsWith(a, "/") then a + b
    else a + "/" + b
  }

  /** Joining a relative name to a directory that does not end in '/' puts one '/' between them. */
  lemma PathJoinPlain(a: string, b: string)
    requires a != [] && a[|a| - 1] != '/' && b != [] && b[0] != '/'
    ensures PathJoin(a, b) == a + "/" + b
  {
    assert b[..1] == [b[0]];
    assert a[|a| - 1..] == [a[|a| - 1]];
  }

  // ---------------------------------------------------------------------------
  // sorted() on strings: code-point lexicographic order, by insertion
  // ---------------------------------------------------------------------------

  /** Python's `a <= b` on strings. */
  predicate StrLe(a: string, b: string)
    decreases |a|
  {
    a == [] || (b != [] && (a[0] < b[0] || (a[0] == b[0] && StrLe(a[1..], b[1..]))))
  }

  lemma {:induction false} StrLeTotal(a: string, b: string)
    ensures StrLe(a, b) || StrLe(b, a)
    decreases |a|
  {
    if a != [] && b != [] && a[0] == b[0] {
      StrLeTotal(a[1..], b[1..]);
    }
  }

  predicate IsSorted(s: seq<string>) {
    forall i :: 0 < i < |s| ==> StrLe(s[i - 1], s[i])
  }

  function Insert(x: string, s: seq<string>): (r: seq<string>)
    ensures multiset(r) == multiset(s) + multiset{x}
    ensures |r| == |s| + 1
    ensures r[0] == x || (s != [] && r[0] == s[0])
    ensures IsSorted(s) ==> IsSorted(r)
    decreases |s|
  {
    if s == [] then [x]
    else if StrLe(x, s[0]) then [x] + s
    else
      StrLeTotal(x, s[0]);
      var rest := Insert(x, s[1..]);
      assert s == [s[0]] + s[1..];
      assert IsSorted(s) ==> IsSorted(s[1..]) by {
        if IsSorted(s) {
          forall i | 0 < i < |s[1..]| ensures StrLe(s[1..][i - 1], s[1..][i]) {
            assert s[1..][i - 1] == s[i] && s[1..][i] == s[i + 1];
          }
        }
      }
      assert IsSorted(s) && |s| > 1 ==> StrLe(s[0], s[1]);
      [s[0]] + rest
  }

  /** `sorted(names)`: the same names, in ascending order. */
  function Sorted(s: seq<string>): (r: seq<string>)
    ensures multiset(r) == multiset(s) && |r| == |s|
    decreases |s|
  {
    if s == [] then []
    else
      assert s == [s[0]] + s[1..];
      Insert(s[0], Sorted(s[1..]))
  }

  /** `sorted(names)` is in ascending order. */
  lemma {:induction false} SortedIsSorted(s: seq<string>)
    ensures IsSorted(Sorted(s))
    decreases |s|
  {
    if s != [] {
      SortedIsSorted(s[1..]);
    }
  }

  /** No name occurs twice, as in a directory listing. */
  predicate NoDuplicates(s: seq<string>) {
    forall i, j :: 0 <= i < j < |s| ==> s[i] != s[j]
  }

  lemma DuplicateCount(s: seq<string>, i: nat, j: nat)
    requires i < j < |s|
    ensures s[i] == s[j] ==> multiset(s)[s[i]] >= 2
  {
    assert s == s[..j] + [s[j]] + s[j + 1..];
    assert s[..j][i] == s[i];
  }

  lemma {:induction false} DistinctCount(s: seq<string>, x: string)
    requires NoDuplicates(s)
    ensures multiset(s)[x] <= 1
    decreases |s|
  {
    if s != [] {
      assert s == [s[0]] + s[1..];
      assert NoDuplicates(s[1..]) by {
        forall i, j | 0 <= i < j < |s[1..]| ensures s[1..][i] != s[1..][j] {
          assert s[1..][i] == s[i + 1] && s[1..][j] == s[j + 1];
        }
      }
      DistinctCount(s[1..], x);
      assert x == s[0] ==> x !in s[1..];
    }
  }

  /** Sorting a listing without duplicates gives one without duplicates. */
  lemma SortedNoDuplicates(s: seq<string>)
    requires NoDuplicates(s)
    ensures NoDuplicates(Sorted(s))
  {
    var r := Sorted(s);
    forall i, j | 0 <= i < j < |r| ensures r[i] != r[j] {
      DuplicateCount(r, i, j);
      DistinctCount(s, r[i]);
    }
  }

  /** Joining one directory to two relative names gives two paths, unless the names are equal. */
  lemma PathJoinInjective(dir: string, a: string, b: string)
    requires dir != [] && dir[|dir| - 1] != '/'
    requires a != [] && a[0] != '/' && b != [] && b[0] != '/'
    requires PathJoin(dir, a) == PathJoin(dir, b)
    ensures a == b
  {
    PathJoinPlain(dir, a);
    PathJoinPlain(dir, b);
    assert (dir + "/" + a)[|dir| + 1..] == a;
    assert (dir + "/" + b)[|dir| + 1..] == b;
  }
}
