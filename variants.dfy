/** The variant generators of gg_variant.h: string rewrites that append
    alternate spellings of a pattern to a vector of strings, the table that
    names them, and the parsing of one-letter variant names. */
module Variants {
  import opened Bytes
  import opened Options
  import Tokenizer

  datatype Generator =
    Acronym | Contraction | Ellipses | Fatfinger | Levenshtein1 | Sensitive | Thesaurus | Unicode

  /** `s_variant_generator`: each generator under its name and under the
      name's first letter. */
  const Generators: map<Text, Generator> := map[
    "acronym" := Acronym, "a" := Acronym,
    "contraction" := Contraction, "c" := Contraction,
    "ellipses" := Ellipses, "e" := Ellipses,
    "fatfinger" := Fatfinger, "f" := Fatfinger,
    "levenshtein1" := Levenshtein1, "l" := Levenshtein1,
    "sensitive" := Sensitive, "s" := Sensitive,
    "thesaurus" := Thesaurus, "t" := Thesaurus,
    "unicode" := Unicode, "u" := Unicode]

  const FullNames: seq<Text> :=
    ["acronym", "contraction", "ellipses", "fatfinger", "levenshtein1", "sensitive", "thesaurus", "unicode"]

  const AliasLetters: Text := "acefltsu"

  /** What a `const char*` made by `c_str()` holds: the bytes before the
      first NUL. */
  function CString(s: Text): (r: Text)
    ensures 0 as char !in r && r <= s
    ensures 0 as char !in s ==> r == s
  {
    s[..Tokenizer.Find(s, 0 as char, 0)]
  }

  /** `is_variant (id)`: the map holds the C string. */
  predicate IsVariant(id: Text)
  {
    CString(id) in Generators
  }

  /** A name is a variant exactly when it is one of the eight names or one
      of their eight first letters. */
  lemma VariantNames(id: Text)
    requires 0 as char !in id
    ensures IsVariant(id) <==> id in FullNames || (|id| == 1 && id[0] in AliasLetters)
  {
    if |id| == 1 && id[0] in AliasLetters {
      assert id == [id[0]];
    }
  }

  /** Each one-letter alias runs the same generator as the name it
      abbreviates. */
  lemma AliasesAgree(name: Text)
    requires name in FullNames
    ensures [name[0]] in Generators && Generators[[name[0]]] == Generators[name]
  {
  }

  //----------------------------------------------------------------------------
  // acronym

  /** The words acronym skips. */
  const Excluded: seq<Text> := ["of", "the"]

  /** `token[0]`: the first byte, or the terminating NUL of an empty token
      (a phrase that starts with a space yields one). */
  function Initial(token: Text): Byte
  {
    if token == [] then 0 as char else token[0]
  }

  /** `while (' ' == a_phrase[++space]);` from the space at `i - 1`: the
      first position from `i` on without a space, reading the terminating
      NUL at the end. */
  function SkipSpaces(p: Text, i: int): (j: int)
    requires 0 <= i <= |p|
    ensures i <= j <= |p| && (j < |p| ==> p[j] != ' ')
    ensures forall k :: i <= k < j ==> p[k] == ' '
    decreases |p| - i
  {
    if i == |p| || p[i] != ' ' then i else SkipSpaces(p, i + 1)
  }

  /** The words acronym's loop takes off the front of the phrase, each
      ending at a space, and the rest that has no space left. */
  function Words(p: Text): (r: (seq<Text>, Text))
    ensures ' ' !in r.1
    ensures forall w :: w in r.0 ==> ' ' !in w
    decreases |p|
  {
    var space := Tokenizer.Find(p, ' ', 0);
    if space == |p| then ([], p)
    else
      var rest := Words(p[SkipSpaces(p, space + 1)..]);
      ([p[..space]] + rest.0, rest.1)
  }

  /** The initials of the words that are not excluded, in order. */
  function Kept(words: seq<Text>): Text
  {
    if words == [] then []
    else (if words[0] in Excluded then [] else [Initial(words[0])]) + Kept(words[1..])
  }

  /** The letters of the acronym: the kept initials, then the first byte of
      the rest when there is at least one kept initial and a rest. */
  function Letters(p: Text): Text
  {
    var (words, last) := Words(p);
    var kept := Kept(words);
    if |kept| > 0 && |last| > 0 then kept + [last[0]] else kept
  }

  const Spaced: Text := " "
  const Dotted: Text := "."
  const DotSpaced: Text := ". "

  /** Every letter followed by `suffix`. */
  function Spread(letters: Text, suffix: Text): Text
  {
    if letters == [] then []
    else Spread(letters[..|letters| - 1], suffix) + [letters[|letters| - 1]] + suffix
  }

  /** The four strings acronym appends: plain, spaced, dotted, and dotted
      and spaced; none when there are no letters. */
  function AcronymStrings(p: Text): seq<Text>
  {
    var letters := Letters(p);
    if letters == [] then []
    else [letters, Spread(letters, Spaced), Spread(letters, Dotted), Spread(letters, DotSpaced)]
  }

  /** `acronym (a_target, a_phrase)`, without its debug line (see
      `Generate`). */
  method AcronymOf(target: seq<Text>, phrase: Text) returns (after: seq<Text>, count: int)
    ensures after == target + AcronymStrings(phrase) && count == |Letters(phrase)|
  {
    var p := phrase;
    var plain, pspace, dotted, dspace: Text := [], [], [], [];
    count := 0;
    ghost var words := Words(phrase);
    var space := Tokenizer.Find(p, ' ', 0);
    while space != |p|
      invariant space == Tokenizer.Find(p, ' ', 0)
      invariant Words(p).1 == words.1 && plain + Kept(Words(p).0) == Kept(words.0)
      invariant pspace == Spread(plain, Spaced) && dotted == Spread(plain, Dotted) && dspace == Spread(plain, DotSpaced)
      invariant count == |plain|
      decreases |p|
    {
      var token := p[..space];
      var j := space + 1;
      while j < |p| && p[j] == ' '
        invariant space + 1 <= j <= |p| && SkipSpaces(p, space + 1) == SkipSpaces(p, j)
        decreases |p| - j
      {
        j := j + 1;
      }
      ghost var rest := Words(p[j..]);
      WordsStep(p, space, j);
      KeptRound(plain, token, rest.0, Kept(words.0));
      p := p[j..];
      space := Tokenizer.Find(p, ' ', 0);
      if token in Excluded {
        continue;
      }
      var c := Initial(token);
      plain := plain + [c];
      pspace := pspace + [c] + Spaced;
      dotted := dotted + [c] + Dotted;
      dspace := dspace + [c] + DotSpaced;
      count := count + 1;
    }
    assert Words(p) == ([], p);
    assert plain == Kept(words.0) && p == words.1;
    if count > 0 && |p| > 0 {
      var c := p[0];
      plain := plain + [c];
      pspace := pspace + [c] + Spaced;
      dotted := dotted + [c] + Dotted;
      dspace := dspace + [c] + DotSpaced;
      count := count + 1;
    }
    after := target;
    if count > 0 {
      after := after + [plain, pspace, dotted, dspace];
    }
  }

  /** One round of acronym's loop takes the first word off the phrase. */
  lemma WordsStep(p: Text, space: int, j: int)
    requires space == Tokenizer.Find(p, ' ', 0) < |p|
    requires j == SkipSpaces(p, space + 1)
    ensures Words(p) == ([p[..space]] + Words(p[j..]).0, Words(p[j..]).1)
  {
  }

  /** The letters gathered so far and the initials still to come add up
      to the same acronym after one more word. */
  lemma KeptRound(plain: Text, token: Text, words: seq<Text>, kept: Text)
    requires plain + Kept([token] + words) == kept
    ensures token in Excluded ==> plain + Kept(words) == kept
    ensures token !in Excluded ==> (plain + [Initial(token)]) + Kept(words) == kept
  {
    assert ([token] + words)[1..] == words;
  }

  /** A phrase without a space has no acronym. */
  lemma AcronymNeedsSpace(p: Text)
    requires ' ' !in p
    ensures AcronymStrings(p) == [] && Letters(p) == []
  {
    assert Tokenizer.Find(p, ' ', 0) == |p|;
  }

  /** At most one initial per word, in the order of the words. */
  lemma {:induction false} KeptLength(words: seq<Text>)
    ensures |Kept(words)| <= |words|
    ensures words != [] && words[0] !in Excluded ==> Kept(words)[0] == Initial(words[0])
  {
    if words != [] {
      KeptLength(words[1..]);
    }
  }

  /** The acronym of a phrase: at most one letter per word, and then
      either nothing or exactly the four forms, the plain letters first. */
  lemma AcronymShape(p: Text)
    ensures |Letters(p)| <= |Words(p).0| + 1
    ensures AcronymStrings(p) == [] <==> Letters(p) == []
    ensures AcronymStrings(p) != [] ==> |AcronymStrings(p)| == 4 && AcronymStrings(p)[0] == Letters(p)
  {
    KeptLength(Words(p).0);
  }

  /** Excluded words contribute no initial. */
  lemma {:induction false} KeptAllExcluded(words: seq<Text>)
    requires forall w :: w in words ==> w in Excluded
    ensures Kept(words) == []
  {
    if words != [] {
      assert words[0] in words;
      forall w | w in words[1..] ensures w in Excluded {
        assert w in words;
      }
      KeptAllExcluded(words[1..]);
    }
  }

  /** A phrase whose every word before the last is "of" or "the" has no
      acronym: nothing is appended, and (by `AcronymOf`) the count is 0. */
  lemma AcronymAllExcluded(p: Text)
    requires forall w :: w in Words(p).0 ==> w in Excluded
    ensures Letters(p) == [] && AcronymStrings(p) == []
  {
    KeptAllExcluded(Words(p).0);
  }

  /** Each letter of the acronym is followed by the suffix: the spread
      string is the spread of the letters before `i`, then letter `i` and
      the suffix, then the spread of the letters after `i` (so, by
      `SpreadLength`, letter `i` starts block `i` of `|suffix| + 1` bytes). */
  lemma SpreadBlocks(letters: Text, suffix: Text, i: int)
    requires 0 <= i < |letters|
    ensures Spread(letters, suffix)
      == Spread(letters[..i], suffix) + ([letters[i]] + suffix) + Spread(letters[i + 1..], suffix)
  {
    var one := [letters[i]];
    assert letters == (letters[..i] + one) + letters[i + 1..];
    SpreadConcat(letters[..i] + one, letters[i + 1..], suffix);
    SpreadConcat(letters[..i], one, suffix);
    assert one[..0] == [];
  }

  /** Spreading distributes over concatenation. */
  lemma {:induction false} SpreadConcat(a: Text, b: Text, suffix: Text)
    ensures Spread(a + b, suffix) == Spread(a, suffix) + Spread(b, suffix)
    decreases |b|
  {
    if b == [] {
      assert a + b == a;
    } else {
      var n := |b| - 1;
      assert (a + b)[..|a + b| - 1] == a + b[..n];
      assert (a + b)[|a + b| - 1] == b[n];
      SpreadConcat(a, b[..n], suffix);
    }
  }

  lemma {:induction false} SpreadLength(letters: Text, suffix: Text)
    ensures |Spread(letters, suffix)| == |letters| * (|suffix| + 1)
    decreases |letters|
  {
    if letters != [] {
      SpreadLength(letters[..|letters| - 1], suffix);
      Blocks(|letters| - 1, |suffix| + 1);
    }
  }

  lemma Blocks(n: int, k: int)
    ensures (n + 1) * k == n * k + k
  {
  }

  //----------------------------------------------------------------------------
  // contraction

  const Vowels: Text := "AaEeIiOoUu"

  /** `vowel.find (c) != npos`. */
  predicate IsVowel(c: Byte)
  {
    c in Vowels
  }

  /** Contraction stops at the third vowel: "Am", "Amer", not "Americ". */
  const SyllableLimit: int := 2

  /** The strings contraction appends from position `n` on, having counted
      `syllables` vowels: at each vowel the prefix before it, then that
      prefix with a period, until the vowel past the limit. */
  function CutsFrom(p: Text, n: nat, syllables: nat): (r: seq<Text>)
    ensures syllables <= SyllableLimit ==> |r| <= 2 * (SyllableLimit - syllables)
    decreases |p| - n
  {
    if n >= |p| then []
    else if !IsVowel(p[n]) then CutsFrom(p, n + 1, syllables)
    else if syllables + 1 > SyllableLimit then []
    else [p[..n], p[..n] + "."] + CutsFrom(p, n + 1, syllables + 1)
  }

  /** What contraction appends; the scan starts after the first byte. */
  function ContractionStrings(p: Text): (r: seq<Text>)
    ensures |r| <= 2 * SyllableLimit
  {
    CutsFrom(p, 1, 0)
  }

  /** `contraction (a_target, a_phrase)`; it returns 0. */
  method ContractionOf(target: seq<Text>, phrase: Text) returns (after: seq<Text>, count: int)
    ensures after == target + ContractionStrings(phrase) && count == 0
  {
    after := target;
    var syllables := 0;
    var n := 1;
    while n < |phrase|
      invariant 1 <= n && 0 <= syllables <= SyllableLimit
      invariant after + CutsFrom(phrase, n, syllables) == target + ContractionStrings(phrase)
      decreases |phrase| - n
    {
      if !IsVowel(phrase[n]) {
        n := n + 1;
        continue;
      }
      syllables := syllables + 1;
      if syllables > SyllableLimit {
        break;
      }
      after := after + [phrase[..n], phrase[..n] + "."];
      n := n + 1;
    }
    count := 0;
  }

  /** The first position from `n` on that holds a vowel, or `|p|` when
      there is none. */
  function NextVowel(p: Text, n: nat): (k: nat)
    ensures k <= |p| && (k < |p| ==> n <= k && IsVowel(p[k]))
    ensures forall j :: n <= j < k ==> !IsVowel(p[j])
    decreases |p| - n
  {
    if n >= |p| then |p| else if IsVowel(p[n]) then n else NextVowel(p, n + 1)
  }

  /** The prefix before position `k` and that prefix with a period, when
      `k` is a position of the phrase. */
  function Pair(p: Text, k: nat): seq<Text>
    requires k <= |p|
  {
    if k < |p| then [p[..k], p[..k] + "."] else []
  }

  /** Past the limit nothing more is cut. */
  lemma {:induction false} CutsPastLimit(p: Text, n: nat)
    ensures CutsFrom(p, n, SyllableLimit) == []
    decreases |p| - n
  {
    if n < |p| && !IsVowel(p[n]) {
      CutsPastLimit(p, n + 1);
    }
  }

  /** With one syllable counted, the cut is at the next vowel. */
  lemma {:induction false} CutsOneLeft(p: Text, n: nat)
    ensures CutsFrom(p, n, 1) == Pair(p, NextVowel(p, n))
    decreases |p| - n
  {
    if n < |p| {
      if !IsVowel(p[n]) {
        CutsOneLeft(p, n + 1);
      } else {
        CutsPastLimit(p, n + 1);
      }
    }
  }

  /** Contraction cuts the phrase before the first vowel after its first
      byte and before the vowel after that, and nowhere else: at most four
      strings. */
  lemma ContractionShape(p: Text)
    ensures var k := NextVowel(p, 1);
      ContractionStrings(p) == if k < |p| then Pair(p, k) + Pair(p, NextVowel(p, k + 1)) else []
    ensures |ContractionStrings(p)| <= 4
  {
    CutsTwoLeft(p, 1);
  }

  lemma {:induction false} CutsTwoLeft(p: Text, n: nat)
    ensures var k := NextVowel(p, n);
      CutsFrom(p, n, 0) == if k < |p| then Pair(p, k) + Pair(p, NextVowel(p, k + 1)) else []
    decreases |p| - n
  {
    if n < |p| {
      if !IsVowel(p[n]) {
        CutsTwoLeft(p, n + 1);
      } else {
        CutsOneLeft(p, n + 1);
      }
    }
  }

  //----------------------------------------------------------------------------
  // ellipses

  /** The shortest cut ellipses makes. */
  const EllipsesLimit: int := 8

  /** The prefixes of lengths 8 up to `n` (exclusive). */
  function Cuts(p: Text, n: nat): (r: seq<Text>)
    requires n <= |p|
    ensures forall s :: s in r ==> EllipsesLimit <= |s| && s < p
  {
    if n <= EllipsesLimit then [] else Cuts(p, n - 1) + [p[..n - 1]]
  }

  /** `ellipses (a_target, a_phrase)`: every prefix of length 8 through
      `|p| - 2`. On an empty phrase `size () - 1` wraps, and the loop would
      append 2^64 empty strings. */
  method EllipsesOf(target: seq<Text>, phrase: Text) returns (status: Status, after: seq<Text>, count: int)
    ensures phrase == [] ==> status == Undefined
    ensures phrase != [] ==> status == Ok && after == target + Cuts(phrase, |phrase| - 1) && count == 0
  {
    if phrase == [] {
      return Undefined, target, 0;
    }
    status, after := Ok, target;
    var last := |phrase| - 1;
    var n := 1;
    while n < last
      invariant 1 <= n <= |phrase| && (n <= last || last == 0)
      invariant after == target + Cuts(phrase, n)
      decreases last - n
    {
      if n >= EllipsesLimit {
        after := after + [phrase[..n]];
      }
      n := n + 1;
    }
    count := 0;
  }

  /** Ellipses appends the prefixes of lengths 8, 9, ..., |p| - 2 in order:
      nothing for phrases shorter than 10 bytes. */
  lemma {:induction false} EllipsesShape(p: Text, n: nat)
    requires n <= |p|
    ensures |Cuts(p, n)| == if n <= EllipsesLimit then 0 else n - EllipsesLimit
    ensures forall i :: 0 <= i < |Cuts(p, n)| ==> Cuts(p, n)[i] == p[..EllipsesLimit + i]
    decreases n
  {
    if n > EllipsesLimit {
      EllipsesShape(p, n - 1);
    }
  }

  //----------------------------------------------------------------------------
  // levenshtein1

  /** The phrase without byte `n`. */
  function Missing(p: Text, n: int): (r: Text)
    requires 0 <= n < |p|
  {
    p[..n] + p[n + 1..]
  }

  /** The phrase with byte `n` doubled. */
  function Doubled(p: Text, n: int): (r: Text)
    requires 0 <= n < |p|
  {
    p[..n + 1] + p[n..]
  }

  /** The phrase with bytes `n - 1` and `n` swapped. */
  function Flipped(p: Text, n: int): (r: Text)
    requires 1 <= n < |p|
  {
    p[..n - 1] + p[n..n + 1] + p[n - 1..n] + p[n + 1..]
  }

  /** The three edits at each position from 1 to `n`. */
  function Edits(p: Text, n: nat): seq<Text>
    requires n < |p|
  {
    if n == 0 then [] else Edits(p, n - 1) + [Missing(p, n), Doubled(p, n), Flipped(p, n)]
  }

  /** Every edit is one byte shorter, as long, or one byte longer. */
  lemma {:induction false} EditsLengths(p: Text, n: nat)
    requires n < |p|
    ensures forall s :: s in Edits(p, n) ==> |p| - 1 <= |s| <= |p| + 1
    decreases n
  {
    if n > 0 {
      EditsLengths(p, n - 1);
    }
  }

  /** What levenshtein1 appends: the phrase without its first byte, the
      phrase without its last two bytes (`substr (0, N - 1)` with
      `N == size () - 1`), then the edits at each position from 1 on;
      nothing for phrases shorter than 5 bytes. */
  function LevenshteinStrings(p: Text): (r: seq<Text>)
    ensures forall i :: 0 <= i < |r| ==> |p| - 2 <= |r[i]| <= |p| + 1
  {
    if |p| < 5 then []
    else
      EditsLengths(p, |p| - 1);
      [p[1..], p[..|p| - 2]] + Edits(p, |p| - 1)
  }

  /** `levenshtein1 (a_target, a_phrase)`; it returns 0. On an empty phrase
      `size () - 1` wraps, and `substr (1)` throws `out_of_range`. */
  method Levenshtein1Of(target: seq<Text>, phrase: Text) returns (status: Status, after: seq<Text>, count: int)
    ensures phrase == [] ==> status == Undefined
    ensures phrase != [] ==> status == Ok && after == target + LevenshteinStrings(phrase) && count == 0
  {
    if phrase == [] {
      return Undefined, target, 0;
    }
    status, after := Ok, target;
    var last := |phrase| - 1;
    if last > 3 {
      after := after + [phrase[1..], phrase[..last - 1]];
      ghost var start := after;
      var n := 1;
      while n <= last
        invariant 1 <= n <= last + 1
        invariant after == start + Edits(phrase, n - 1)
      {
        after := after + [Missing(phrase, n), Doubled(phrase, n), Flipped(phrase, n)];
        n := n + 1;
      }
    }
    count := 0;
  }

  /** Levenshtein1 appends 2 + 3 (|p| - 1) strings for a phrase of 5 bytes
      or more, and none for a shorter one. */
  lemma {:induction false} EditsCount(p: Text, n: nat)
    requires n < |p|
    ensures |Edits(p, n)| == 3 * n
    decreases n
  {
    if n > 0 {
      EditsCount(p, n - 1);
    }
  }

  lemma LevenshteinCount(p: Text)
    ensures |LevenshteinStrings(p)| == if |p| < 5 then 0 else 2 + 3 * (|p| - 1)
  {
    if |p| >= 5 {
      EditsCount(p, |p| - 1);
    }
  }

  /** The edits are what their names say: a deletion one byte shorter, a
      doubling one byte longer, and a swap of two neighbours that keeps
      the bytes of the phrase. */
  lemma EditsMean(p: Text, n: int)
    requires 1 <= n < |p|
    ensures |Missing(p, n)| == |p| - 1 && forall i :: 0 <= i < |p| - 1 ==> Missing(p, n)[i] == p[if i < n then i else i + 1]
    ensures |Doubled(p, n)| == |p| + 1 && forall i :: 0 <= i <= |p| ==> Doubled(p, n)[i] == p[if i <= n then i else i - 1]
    ensures Flipped(p, n) == p[n - 1 := p[n]][n := p[n - 1]]
    ensures multiset(Flipped(p, n)) == multiset(p)
  {
    var f := Flipped(p, n);
    assert p == p[..n - 1] + p[n - 1..n] + p[n..n + 1] + p[n + 1..];
  }

  /** The second string drops the last two bytes of the phrase, not one:
      `substr (0, N - 1)` with `N == size () - 1`. */
  lemma LevenshteinDropsTwo(p: Text)
    requires |p| >= 5
    ensures LevenshteinStrings(p)[1] == p[..|p| - 2]
    ensures LevenshteinStrings(p)[0] == p[1..]
  {
  }

  //----------------------------------------------------------------------------
  // the other generators, and running one by name

  /** `sensitive`: flips the caseless flag for this pattern and appends
      nothing; compile restores the flag afterwards. */
  method SensitiveOf(target: seq<Text>, caseless: bool) returns (after: seq<Text>, caseless': bool, count: int)
    ensures after == target && caseless' == !caseless && count == 0
  {
    after, caseless', count := target, !caseless, 0;
  }

  /** What running one generator does to the alternatives and the caseless
      flag. */
  datatype Generated = Generated(status: Status, strs: seq<Text>, caseless: bool)

  /** A generator run on the alternatives so far, as intended: `fatfinger`,
      `thesaurus` and `unicode` report that they are not implemented and
      exit; `ellipses` and `levenshtein1` are undefined on an empty phrase;
      every other run appends its strings, or flips the flag. Whether
      alternatives came before makes no difference to the outcome. */
  function Produce(g: Generator, strs: seq<Text>, phrase: Text, caseless: bool): (r: Generated)
    ensures r.status == Undefined <==> g in {Ellipses, Levenshtein1} && phrase == []
    ensures r.status == Fatal <==> g in {Fatfinger, Thesaurus, Unicode}
    ensures r.status == Ok ==> strs <= r.strs && (r.caseless == caseless <==> g != Sensitive)
    ensures r.status == Ok && g == Sensitive ==> r.strs == strs
  {
    match g
    case Acronym => Generated(Ok, strs + AcronymStrings(phrase), caseless)
    case Contraction => Generated(Ok, strs + ContractionStrings(phrase), caseless)
    case Ellipses =>
      if phrase == [] then Generated(Undefined, strs, caseless)
      else Generated(Ok, strs + Cuts(phrase, |phrase| - 1), caseless)
    case Levenshtein1 =>
      if phrase == [] then Generated(Undefined, strs, caseless)
      else Generated(Ok, strs + LevenshteinStrings(phrase), caseless)
    case Sensitive => Generated(Ok, strs, !caseless)
    case _ => Generated(Fatal, strs, caseless)
  }

  /** The same run as the source has it: every generator but
      `levenshtein1` starts with a debug line that reads `a_target[0]`, and
      compile hands the first generator an empty vector, so the read is
      undefined. */
  function Generate(g: Generator, strs: seq<Text>, phrase: Text, caseless: bool): (r: Generated)
    ensures strs != [] || g == Levenshtein1 ==> r == Produce(g, strs, phrase, caseless)
    ensures strs == [] && g != Levenshtein1 ==> r.status == Undefined
  {
    if g != Levenshtein1 && strs == [] then Generated(Undefined, strs, caseless)
    else Produce(g, strs, phrase, caseless)
  }

  /** The phrase of `Hello World[a]`: as written, the acronym generator
      reads outside the empty vector it is given; as intended it adds the
      four forms of "HW". */
  lemma AcronymOnFirstRun()
    ensures Generate(Acronym, [], HelloWorld, true).status == Undefined
    ensures Produce(Acronym, [], HelloWorld, true) == Generated(Ok, ["HW", "H W ", "H.W.", "H. W. "], true)
  {
    var world: Text := "World";
    FindAt(HelloWorld, 0, 5);
    FindAt(world, 0, 5);
    assert SkipSpaces(HelloWorld, 6) == 6;
    assert HelloWorld[6..] == world && HelloWorld[..5] == "Hello";
    assert Words(world) == ([], world);
    assert Words(HelloWorld) == ([HelloWorld[..5]] + Words(HelloWorld[6..]).0, Words(HelloWorld[6..]).1);
    var hello: Text := "Hello";
    assert [HelloWorld[..5]] + Words(world).0 == [hello];
    assert Words(HelloWorld) == ([hello], world);
    var hw: Text := "HW";
    assert hello != Excluded[0] && hello != Excluded[1];
    assert Kept([hello]) == [Initial(hello)] + Kept([hello][1..]);
    assert Letters(HelloWorld) == hw;
    assert hw[..1] == "H" && "H"[..0] == [];
    assert Spread(hw, Spaced) == "H W ";
    assert Spread(hw, Dotted) == "H.W.";
    assert Spread(hw, DotSpaced) == "H. W. ";
  }

  /** The first space from `b` on is at `e` when the bytes between hold
      none and `e` holds one or is the end. */
  lemma FindAt(s: Text, b: int, e: int)
    requires 0 <= b <= e <= |s|
    requires forall i :: b <= i < e ==> s[i] != ' '
    requires e < |s| ==> s[e] == ' '
    ensures Tokenizer.Find(s, ' ', b) == e
  {
  }

  const HelloWorld: Text := "Hello World"

  /** `generator_iter->second (strs, a_str)`: the generator a name maps to
      run on the alternatives so far. */
  method RunGenerator(g: Generator, strs: seq<Text>, phrase: Text, caseless: bool) returns (r: Generated)
    ensures r == Produce(g, strs, phrase, caseless)
  {
    var status, after, count, flag := Ok, strs, 0, caseless;
    match g {
      case Acronym => after, count := AcronymOf(strs, phrase);
      case Contraction => after, count := ContractionOf(strs, phrase);
      case Ellipses => status, after, count := EllipsesOf(strs, phrase);
      case Levenshtein1 => status, after, count := Levenshtein1Of(strs, phrase);
      case Sensitive => after, flag, count := SensitiveOf(strs, caseless);
      case _ => status := Fatal;
    }
    if status != Ok {
      after, flag := strs, caseless;
    }
    r := Generated(status, after, flag);
  }

  //----------------------------------------------------------------------------
  // variant names

  /** `register_variant`: append the name; it returns true. */
  method RegisterVariant(registry: seq<Text>, id: Text) returns (ok: bool, after: seq<Text>)
    ensures ok && after == registry + [id]
  {
    after := registry + [id];
    ok := true;
  }

  /** Each byte of a string as a one-byte name. */
  function Singles(s: Text): (r: seq<Text>)
    ensures |r| == |s| && forall i :: 0 <= i < |s| ==> r[i] == [s[i]]
  {
    seq(|s|, i requires 0 <= i < |s| => [s[i]])
  }

  /** `descramble_variants`: register each byte as a one-letter variant
      name, in order; a byte that names no variant is fatal. */
  method DescrambleVariants(names: seq<Text>, scrambled: Text) returns (status: Status, after: seq<Text>)
    ensures status != Undefined
    ensures status == Ok <==> forall i :: 0 <= i < |scrambled| ==> IsVariant([scrambled[i]])
    ensures status == Ok ==> after == names + Singles(scrambled)
  {
    after := names;
    var i := 0;
    while i < |scrambled|
      invariant 0 <= i <= |scrambled|
      invariant forall k :: 0 <= k < i ==> IsVariant([scrambled[k]])
      invariant after == names + Singles(scrambled[..i])
    {
      var single := [scrambled[i]];
      if !IsVariant(single) {
        return Fatal, after;  // synopsis: bad variant
      }
      var ok;
      ok, after := RegisterVariant(after, single);
      assert Singles(scrambled[..i + 1]) == Singles(scrambled[..i]) + [single];
      i := i + 1;
    }
    assert scrambled[..i] == scrambled;
    status := Ok;
  }

  /** A byte names a variant exactly when it is one of the eight alias
      letters. */
  lemma SingleVariant(c: Byte)
    ensures IsVariant([c]) <==> c in AliasLetters
  {
    if c == 0 as char {
      assert CString([c]) == [];
    } else {
      VariantNames([c]);
    }
  }
}
