/** The tokenizer and timing annotator of the speed reader
    (src/lib/utils/text-parser.ts): punctuation extraction, the Optimal
    Recognition Point, the pause rules and the whitespace tokenizer. */
module TextParser {
  import opened Types

  // ---------------------------------------------------------------------
  // Character classes
  // ---------------------------------------------------------------------

  /** The regex class [a-zA-Z0-9]: ASCII letters and digits only. */
  predicate IsAsciiAlnum(c: char) {
    ('a' <= c <= 'z') || ('A' <= c <= 'Z') || ('0' <= c <= '9')
  }

  /** The class of the leading-punctuation regex: ( [ { " “ „ « ' ‘ */
  predicate IsOpening(c: char) {
    c == '(' || c == '[' || c == '{' || c == '"' || c == '\U{201C}' || c == '\U{201E}'
    || c == '\U{00AB}' || c == '\'' || c == '\U{2018}'
  }

  /** The class of the trailing-punctuation regex:
      . ! ? ; , - — – : ) ] } " “ ” „ « » ' ‘ */
  predicate IsClosing(c: char) {
    c == '.' || c == '!' || c == '?' || c == ';' || c == ',' || c == '-'
    || c == '\U{2014}' || c == '\U{2013}' || c == ':' || c == ')' || c == ']' || c == '}'
    || c == '"' || c == '\U{201C}' || c == '\U{201D}' || c == '\U{201E}'
    || c == '\U{00AB}' || c == '\U{00BB}' || c == '\'' || c == '\U{2018}'
  }

  /** ECMAScript WhiteSpace and LineTerminator code points: the set matched
      by `\s` and removed by `String.prototype.trim`. */
  predicate IsWhitespace(c: char) {
    c == '\t' || c == '\n' || c == '\U{000B}' || c == '\U{000C}' || c == '\r'
    || c == ' ' || c == '\U{00A0}' || c == '\U{1680}'
    || ('\U{2000}' <= c <= '\U{200A}')
    || c == '\U{2028}' || c == '\U{2029}' || c == '\U{202F}' || c == '\U{205F}'
    || c == '\U{3000}' || c == '\U{FEFF}'
  }


  predicate AllWhitespace(s: string) { forall i :: 0 <= i < |s| ==> IsWhitespace(s[i]) }

  predicate NoWhitespace(s: string) { forall i :: 0 <= i < |s| ==> !IsWhitespace(s[i]) }

  // ---------------------------------------------------------------------
  // Maximal runs (what an anchored, greedy `[...]+` regex matches)
  // ---------------------------------------------------------------------

  /** The character classes whose runs the source's regexes match. */
  datatype CharClass = Opening | Closing | Space | NonSpace

  predicate InClass(c: char, k: CharClass) {
    match k
    case Opening => IsOpening(c)
    case Closing => IsClosing(c)
    case Space => IsWhitespace(c)
    case NonSpace => !IsWhitespace(c)
  }

  /** Length of the longest prefix of `s` whose characters are all in `k`. */
  function PrefixRun(s: string, k: CharClass): (n: nat)
    ensures n <= |s|
    decreases |s|
  {
    if |s| > 0 && InClass(s[0], k) then 1 + PrefixRun(s[1..], k) else 0
  }

  /** Length of the longest suffix of `s` whose characters are all in `k`. */
  function SuffixRun(s: string, k: CharClass): (n: nat)
    ensures n <= |s|
    decreases |s|
  {
    if |s| > 0 && InClass(s[|s| - 1], k) then 1 + SuffixRun(s[..|s| - 1], k) else 0
  }

  /** The prefix run is a run of `k` and cannot be extended. */
  lemma {:induction false} PrefixRunIsMaximal(s: string, k: CharClass)
    ensures forall i :: 0 <= i < PrefixRun(s, k) ==> InClass(s[i], k)
    ensures PrefixRun(s, k) < |s| ==> !InClass(s[PrefixRun(s, k)], k)
    decreases |s|
  {
    if |s| > 0 && InClass(s[0], k) {
      var t := s[1..];
      PrefixRunIsMaximal(t, k);
      forall i | 1 <= i < PrefixRun(s, k) ensures InClass(s[i], k) {
        assert s[i] == t[i - 1];
      }
      if PrefixRun(s, k) < |s| {
        assert s[PrefixRun(s, k)] == t[PrefixRun(t, k)];
      }
    }
  }

  /** The suffix run is a run of `k` and cannot be extended. */
  lemma {:induction false} SuffixRunIsMaximal(s: string, k: CharClass)
    ensures forall i :: |s| - SuffixRun(s, k) <= i < |s| ==> InClass(s[i], k)
    ensures SuffixRun(s, k) < |s| ==> !InClass(s[|s| - SuffixRun(s, k) - 1], k)
    decreases |s|
  {
    if |s| > 0 && InClass(s[|s| - 1], k) {
      var t := s[..|s| - 1];
      SuffixRunIsMaximal(t, k);
      forall i | |s| - SuffixRun(s, k) <= i < |s| - 1 ensures InClass(s[i], k) {
        assert s[i] == t[i];
      }
      if SuffixRun(s, k) < |s| {
        assert s[|s| - SuffixRun(s, k) - 1] == t[|t| - SuffixRun(t, k) - 1];
      }
    }
  }

  /** A maximal prefix run is determined by its two defining properties. */
  lemma {:induction false} PrefixRunUnique(s: string, k: CharClass, n: nat)
    requires n <= |s|
    requires forall i :: 0 <= i < n ==> InClass(s[i], k)
    requires n < |s| ==> !InClass(s[n], k)
    ensures PrefixRun(s, k) == n
    decreases |s|
  {
    if n > 0 {
      var t := s[1..];
      forall i | 0 <= i < n - 1 ensures InClass(t[i], k) {
        assert t[i] == s[i + 1];
      }
      if n - 1 < |t| {
        assert t[n - 1] == s[n];
      }
      PrefixRunUnique(t, k, n - 1);
    }
  }

  /** A maximal suffix run is determined by its two defining properties. */
  lemma {:induction false} SuffixRunUnique(s: string, k: CharClass, n: nat)
    requires n <= |s|
    requires forall i :: |s| - n <= i < |s| ==> InClass(s[i], k)
    requires n < |s| ==> !InClass(s[|s| - n - 1], k)
    ensures SuffixRun(s, k) == n
    decreases |s|
  {
    if n > 0 {
      var t := s[..|s| - 1];
      forall i | |t| - (n - 1) <= i < |t| ensures InClass(t[i], k) {
        assert t[i] == s[i];
      }
      if n - 1 < |t| {
        assert t[|t| - (n - 1) - 1] == s[|s| - n - 1];
      }
      SuffixRunUnique(t, k, n - 1);
    }
  }

  // ---------------------------------------------------------------------
  // extractPunctuation
  // ---------------------------------------------------------------------

  datatype Extraction = Extraction(leading: string, cleanWord: string, trailing: string)

  /** What a correct split of `word` into leading punctuation, clean word and
      trailing punctuation is: nothing lost, each fragment from its class, the
      leading run maximal in `word` and the trailing run maximal in what is
      left after the leading run. */
  ghost predicate IsPunctuationSplit(word: string, e: Extraction) {
    && e.leading + e.cleanWord + e.trailing == word
    && AllOpening(e.leading)
    && AllClosing(e.trailing)
    && !StartsOpening(e.cleanWord + e.trailing)
    && !EndsClosing(e.cleanWord)
  }

  /** Every character is opening punctuation. */
  predicate AllOpening(s: string) {
    forall i :: 0 <= i < |s| ==> IsOpening(s[i])
  }

  /** Every character is closing punctuation. */
  predicate AllClosing(s: string) {
    forall i :: 0 <= i < |s| ==> IsClosing(s[i])
  }

  /** The first character is opening punctuation. */
  predicate StartsOpening(s: string) {
    s != [] && IsOpening(s[0])
  }

  /** The last character is closing punctuation. */
  predicate EndsClosing(s: string) {
    s != [] && IsClosing(s[|s| - 1])
  }

  /** Cutting a sequence at two points and gluing the pieces back loses nothing. */
  lemma SliceThree(s: string, i: nat, j: nat)
    requires i <= j <= |s|
    ensures s[..i] + s[i..j] + s[j..] == s
  {
    assert s[..i] + s[i..j] == s[..j];
  }

  /** The leading run is opening punctuation. */
  lemma LeadingIsOpening(word: string, n: nat)
    requires n == PrefixRun(word, Opening)
    ensures AllOpening(word[..n])
  {
    PrefixRunIsMaximal(word, Opening);
    forall i | 0 <= i < n ensures IsOpening(word[..n][i]) {
      assert InClass(word[i], Opening);
    }
  }

  /** The trailing run is closing punctuation. */
  lemma TrailingIsClosing(rest: string, m: nat)
    requires m == SuffixRun(rest, Closing)
    ensures AllClosing(rest[|rest| - m..])
  {
    SuffixRunIsMaximal(rest, Closing);
    var tail := rest[|rest| - m..];
    forall i | 0 <= i < |tail| ensures IsClosing(tail[i]) {
      assert InClass(rest[|rest| - m + i], Closing);
    }
  }

  /** What follows the leading run does not start with opening punctuation. */
  lemma RestNotOpening(word: string, n: nat)
    requires n == PrefixRun(word, Opening)
    ensures !StartsOpening(word[n..])
  {
    PrefixRunIsMaximal(word, Opening);
    if n < |word| {
      assert !InClass(word[n], Opening);
    }
  }

  /** What precedes a maximal trailing run does not end with closing
      punctuation. */
  lemma CleanNotClosing(rest: string, m: nat)
    requires m <= |rest|
    requires m < |rest| ==> !IsClosing(rest[|rest| - m - 1])
    ensures !EndsClosing(rest[..|rest| - m])
  {
    if m < |rest| {
      assert rest[..|rest| - m][|rest| - m - 1] == rest[|rest| - m - 1];
    }
  }

  /** The three fragments of the extraction spell the word again. */
  lemma Glue(word: string, n: nat, m: nat)
    requires n + m <= |word|
    ensures word[..n] + word[n..][..|word[n..]| - m] + word[n..][|word[n..]| - m..] == word
  {
    var rest := word[n..];
    assert rest[..|rest| - m] + rest[|rest| - m..] == rest;
    assert word[..n] + rest == word;
    assert (word[..n] + rest[..|rest| - m]) + rest[|rest| - m..] == word[..n] + (rest[..|rest| - m] + rest[|rest| - m..]);
  }

  /** The two maximal runs cut the word into a correct split. */
  lemma RunsMakePunctuationSplit(word: string, n: nat, m: nat)
    requires n == PrefixRun(word, Opening)
    requires m == SuffixRun(word[n..], Closing)
    ensures IsPunctuationSplit(word, Extraction(word[..n], word[n..][..|word[n..]| - m], word[n..][|word[n..]| - m..]))
    ensures word[..n] == word ==> word[n..][..|word[n..]| - m] == [] && word[n..][|word[n..]| - m..] == []
  {
    var rest := word[n..];
    Glue(word, n, m);
    assert rest[..|rest| - m] + rest[|rest| - m..] == rest;
    LeadingIsOpening(word, n);
    TrailingIsClosing(rest, m);
    RestNotOpening(word, n);
    SuffixRunIsMaximal(rest, Closing);
    assert m < |rest| ==> !InClass(rest[|rest| - m - 1], Closing);
    CleanNotClosing(rest, m);
  }

  /** Strip the leading run of opening punctuation, then the trailing run of
      closing punctuation from what remains. A missing regex match is the
      empty run, which leaves the word as it is. */
  function ExtractPunctuation(word: string): (e: Extraction)
    ensures IsPunctuationSplit(word, e)
    ensures e.leading == word ==> e.cleanWord == [] && e.trailing == []
  {
    var n := PrefixRun(word, Opening);
    var m := SuffixRun(word[n..], Closing);
    RunsMakePunctuationSplit(word, n, m);
    Extraction(word[..n], word[n..][..|word[n..]| - m], word[n..][|word[n..]| - m..])
  }

  /** The leading fragment of a correct split is the maximal opening run. */
  lemma LeadingRunUnique(word: string, lead: string, rest: string)
    requires lead + rest == word
    requires AllOpening(lead)
    requires !StartsOpening(rest)
    ensures PrefixRun(word, Opening) == |lead|
  {
    var n := |lead|;
    forall i | 0 <= i < n ensures InClass(word[i], Opening) {
      assert word[i] == lead[i];
    }
    if n < |word| {
      assert word[n] == rest[0];
    }
    PrefixRunUnique(word, Opening, n);
  }

  /** The trailing fragment of a correct split is the maximal closing run. */
  lemma TrailingRunUnique(rest: string, clean: string, trail: string)
    requires clean + trail == rest
    requires AllClosing(trail)
    requires !EndsClosing(clean)
    ensures SuffixRun(rest, Closing) == |trail|
  {
    var m := |trail|;
    forall i | |rest| - m <= i < |rest| ensures InClass(rest[i], Closing) {
      assert rest[i] == trail[i - (|rest| - m)];
    }
    if m < |rest| {
      assert rest[|rest| - m - 1] == clean[|clean| - 1];
    }
    SuffixRunUnique(rest, Closing, m);
  }

  /** The cut points of a three-way concatenation. */
  lemma CutsOfConcat(word: string, lead: string, clean: string, trail: string)
    requires lead + clean + trail == word
    ensures lead + (clean + trail) == word
    ensures lead == word[..|lead|] && clean + trail == word[|lead|..]
    ensures clean == (clean + trail)[..|clean|] && trail == (clean + trail)[|clean|..]
  {
    assert lead + (clean + trail) == lead + clean + trail;
  }

  /** The converse of ExtractPunctuation's contract: any split with the
      properties of IsPunctuationSplit is the one ExtractPunctuation returns. */
  lemma ExtractionUnique(word: string, e: Extraction)
    requires IsPunctuationSplit(word, e)
    ensures e == ExtractPunctuation(word)
  {
    CutsOfConcat(word, e.leading, e.cleanWord, e.trailing);
    LeadingRunUnique(word, e.leading, e.cleanWord + e.trailing);
    TrailingRunUnique(e.cleanWord + e.trailing, e.cleanWord, e.trailing);
  }

  // ---------------------------------------------------------------------
  // calculateORP
  // ---------------------------------------------------------------------

  /** Some character is an ASCII letter or digit. */
  predicate HasAlnum(s: string) { exists i :: 0 <= i < |s| && IsAsciiAlnum(s[i]) }

  /** The index of the match of /[a-zA-Z0-9]/: the first ASCII alphanumeric. */
  function FirstAlnum(s: string): (r: Option<nat>)
    ensures r.None? <==> !HasAlnum(s)
    ensures r.Some? ==> r.value < |s| && IsAsciiAlnum(s[r.value])
    ensures r.Some? ==> forall i :: 0 <= i < r.value ==> !IsAsciiAlnum(s[i])
    decreases |s|
  {
    if |s| == 0 then None
    else if IsAsciiAlnum(s[0]) then Some(0)
    else
      match FirstAlnum(s[1..])
      case None =>
        assert forall i :: 1 <= i < |s| ==> s[i] == s[1..][i - 1];
        None
      case Some(k) =>
        assert s[k + 1] == s[1..][k];
        Some(k + 1)
  }

  /** The index of the match of /[a-zA-Z0-9][^a-zA-Z0-9]*$/: an alphanumeric
      followed only by non-alphanumerics, that is, the last alphanumeric. */
  function LastAlnum(s: string): (r: Option<nat>)
    ensures r.None? <==> !HasAlnum(s)
    ensures r.Some? ==> r.value < |s| && IsAsciiAlnum(s[r.value])
    ensures r.Some? ==> forall i :: r.value < i < |s| ==> !IsAsciiAlnum(s[i])
    decreases |s|
  {
    if |s| == 0 then None
    else if IsAsciiAlnum(s[|s| - 1]) then Some(|s| - 1)
    else
      var r := LastAlnum(s[..|s| - 1]);
      assert forall i :: 0 <= i < |s| - 1 ==> s[i] == s[..|s| - 1][i];
      r
  }

  function Min(a: int, b: int): int { if a <= b then a else b }

  function Max(a: int, b: int): int { if a <= b then b else a }

  /** The length-tiered offset of the fixation point inside the alphanumeric
      span. The four-way branch chain is the same as min(floor(L/3), 5) for
      every length; in particular the lower clamp at 2 never takes effect,
      because a span longer than 8 has floor(L/3) >= 3. The offset always
      falls in the first half of the span. */
  function OrpOffset(cleanLen: nat): (r: nat)
    ensures r == Min(cleanLen / 3, 5)
    ensures cleanLen > 0 ==> 2 * r < cleanLen
  {
    if cleanLen <= 2 then 0
    else if cleanLen == 3 then 1
    else if cleanLen <= 8 then cleanLen / 3
    else Min(Max(cleanLen / 3, 2), 5)
  }

  /** A longer span never moves the fixation point back towards its start. */
  lemma OrpOffsetMonotone(a: nat, b: nat)
    requires a <= b
    ensures OrpOffset(a) <= OrpOffset(b)
  {
  }

  /** The Optimal Recognition Point of the raw token: the start of its
      alphanumeric span plus the tiered offset; the middle of the token when
      it has no ASCII alphanumeric at all. */
  function CalculateORP(word: string): (orp: nat)
    ensures !HasAlnum(word) ==> orp == |word| / 2
    ensures HasAlnum(word) ==> orp < |word| && HasAlnum(word[..orp + 1]) && HasAlnum(word[orp..])
    ensures |word| > 0 ==> orp < |word|
  {
    match (FirstAlnum(word), LastAlnum(word))
    case (Some(startIdx), Some(endIdx)) =>
      assert startIdx <= endIdx;
      var orp := startIdx + OrpOffset(endIdx - startIdx + 1);
      assert word[..orp + 1][startIdx] == word[startIdx];
      assert word[orp..][endIdx - orp] == word[endIdx];
      orp
    case _ => |word| / 2
  }

  /** The fixation point lies between the first and the last ASCII
      alphanumeric of the token, at the tiered offset from the first. */
  lemma OrpInAlnumSpan(word: string, first: nat, last: nat)
    requires first <= last < |word|
    requires IsAsciiAlnum(word[first]) && IsAsciiAlnum(word[last])
    requires forall i :: 0 <= i < first ==> !IsAsciiAlnum(word[i])
    requires forall i :: last < i < |word| ==> !IsAsciiAlnum(word[i])
    ensures CalculateORP(word) == first + Min((last - first + 1) / 3, 5)
    ensures first <= CalculateORP(word) <= last
  {
    assert FirstAlnum(word) == Some(first);
    assert LastAlnum(word) == Some(last);
  }

  /** Sample values of the ORP calculator (text-parser.ts:7-10). */
  lemma OrpExamples()
    ensures CalculateORP("a") == 0
    ensures CalculateORP("it") == 0
    ensures CalculateORP("cat") == 1
    ensures CalculateORP("\U{2014}") == 0
    ensures CalculateORP("caf\U{00E9}") == 1   // é is not in [a-zA-Z0-9]: the span is "caf"
  {
  }

  // ---------------------------------------------------------------------
  // calculatePauseDuration
  // ---------------------------------------------------------------------

  /** Whether some character of `s` is one of `chars` (a regex character
      class test, or `includes` for a single character). */
  predicate ContainsAny(s: string, chars: string) {
    exists i :: 0 <= i < |s| && s[i] in chars
  }

  /** /[.!/?]/: sentence endings, with the literal slash the class contains. */
  const SentenceEndChars: string := "./!?"

  /** /[—–\-;:]/ */
  const ClauseChars: string := "\U{2014}\U{2013}-;:"

  /** /["“”„«»]/ */
  const QuoteChars: string := "\"\U{201C}\U{201D}\U{201E}\U{00AB}\U{00BB}"

  /** /[()\[\]{}]/ */
  const BracketChars: string := "()[]{}"

  /** The pause after a word, in milliseconds, as the sum of seven independent
      rule contributions and nothing else. The early return of the source is
      not part of it: it fires only where this sum is 0 anyway. Every
      contribution is a multiple of 50 and they total at most 1050. */
  function PauseRules(word: string, leading: string, trailing: string): (r: nat)
    ensures r <= 1050 && r % 50 == 0
    ensures leading + trailing == [] && |word| < 8 ==> r == 0
  {
    var allPunc := leading + trailing;
    (if ContainsAny(trailing, SentenceEndChars) then 300 else 0)
    + (if ContainsAny(allPunc, ClauseChars) then 200 else 0)
    + (if ContainsAny(allPunc, QuoteChars) then 200 else 0)
    + (if ContainsAny(allPunc, BracketChars) then 100 else 0)
    + (if ContainsAny(allPunc, ",") then 150 else 0)
    + (if |word| >= 8 then 50 else 0)
    + (if |word| >= 12 then 50 else 0)
  }

  /** calculatePauseDuration as the source writes it: an early return, then
      a running total built up rule by rule. It always agrees with the plain
      sum of the rules. */
  method CalculatePauseDuration(word: string, leading: string, trailing: string)
    returns (pause: nat)
    ensures pause == PauseRules(word, leading, trailing)
  {
    pause := 0;
    var allPunc := leading + trailing;
    if allPunc == [] && |word| < 8 {
      return 0;
    }
    if ContainsAny(trailing, SentenceEndChars) {
      pause := pause + 300;
    }
    if ContainsAny(allPunc, ClauseChars) {
      pause := pause + 200;
    }
    if ContainsAny(allPunc, QuoteChars) {
      pause := pause + 200;
    }
    if ContainsAny(allPunc, BracketChars) {
      pause := pause + 100;
    }
    if ContainsAny(allPunc, ",") {
      pause := pause + 150;
    }
    if |word| >= 8 {
      pause := pause + 50;
    }
    if |word| >= 12 {
      pause := pause + 50;
    }
  }

  /** The pause of a word is zero exactly when no rule fires: neither a
      sentence end in the trailing fragment, nor a clause mark, quote,
      bracket or comma in either fragment, and fewer than 8 characters. */
  lemma PauseZeroIff(word: string, leading: string, trailing: string)
    ensures PauseRules(word, leading, trailing) == 0 <==>
      && !ContainsAny(trailing, SentenceEndChars)
      && !ContainsAny(leading + trailing, ClauseChars)
      && !ContainsAny(leading + trailing, QuoteChars)
      && !ContainsAny(leading + trailing, BracketChars)
      && !ContainsAny(leading + trailing, ",")
      && |word| < 8
  {
  }

  /** The slash in the sentence-end class can never fire: a trailing fragment
      produced by ExtractPunctuation holds closing punctuation only, and the
      slash is not closing punctuation. */
  lemma SlashNeverEndsSentence(word: string)
    ensures var t := ExtractPunctuation(word).trailing;
      ContainsAny(t, SentenceEndChars) <==> ContainsAny(t, ".!?")
  {
    var t := ExtractPunctuation(word).trailing;
    if ContainsAny(t, SentenceEndChars) {
      var i :| 0 <= i < |t| && t[i] in SentenceEndChars;
      assert IsClosing(t[i]);
      assert t[i] in ".!?";
    }
  }

  /** Sample values of the pause rules: nothing for a short bare word,
      300 ms after a full stop, 150 + 50 ms after a comma on a word of eight
      characters. */
  lemma PauseExamples()
    ensures PauseRules("word", "", "") == 0
    ensures PauseRules("hello", "", ".") == 300
    ensures PauseRules("elephant", "", ",") == 200
  {
    PauseOfHello();
    PauseOfElephant();
  }

  /** A sentence end alone: 300 ms. */
  lemma PauseOfHello()
    ensures PauseRules("hello", "", ".") == 300
  {
    assert "."[0] in SentenceEndChars;
  }

  /** A comma and the 8-character bonus: 150 + 50 ms. */
  lemma PauseOfElephant()
    ensures PauseRules("elephant", "", ",") == 200
  {
    assert ","[0] in ",";
    assert "" + "," == ",";
    assert !ContainsAny(",", ClauseChars) && !ContainsAny(",", QuoteChars) && !ContainsAny(",", BracketChars);
  }

  /** The early return covers less than the zero pause: a leading apostrophe
      is punctuation, so the source does not return early, yet no rule
      fires for it. */
  lemma PauseZeroWithPunctuation()
    ensures "'" + "" != [] && PauseRules("'tis", "'", "") == 0
  {
    assert "'" + "" == "'";
    assert !ContainsAny("", SentenceEndChars) && !ContainsAny("", ",");
    assert !ContainsAny("'", ClauseChars) && !ContainsAny("'", QuoteChars) && !ContainsAny("'", BracketChars);
  }

  /** A word that reaches the largest possible pause of 1050 ms: every rule
      fires. */
  lemma PauseMaximumReached()
    ensures PauseRules("(\U{00AB}wonderfulness-,.\U{00BB}", "(\U{00AB}", "-,.\U{00BB}") == 1050
  {
    var lead, trail := "(\U{00AB}", "-,.\U{00BB}";
    var all := lead + trail;
    assert trail[2] in SentenceEndChars;
    assert all[2] in ClauseChars;
    assert all[1] in QuoteChars;
    assert all[0] in BracketChars;
    assert all[3] in ",";
  }

  // ---------------------------------------------------------------------
  // parseText: trim, split on whitespace runs, drop empty pieces, annotate
  // ---------------------------------------------------------------------

  /** The leading whitespace run of `s` and the character that ends it. */
  lemma LeadingSpace(s: string, a: nat)
    requires a == PrefixRun(s, Space)
    ensures a <= |s| && AllWhitespace(s[..a])
    ensures a < |s| ==> !IsWhitespace(s[a])
  {
    PrefixRunIsMaximal(s, Space);
    var head := s[..a];
    forall i | 0 <= i < |head| ensures IsWhitespace(head[i]) {
      assert InClass(s[i], Space);
    }
    assert a < |s| ==> !InClass(s[a], Space);
  }

  /** The trailing whitespace run of `t` and the character before it. */
  lemma TrailingSpace(t: string, b: nat)
    requires b == SuffixRun(t, Space)
    ensures b <= |t| && AllWhitespace(t[|t| - b..])
    ensures b < |t| ==> !IsWhitespace(t[|t| - b - 1])
  {
    SuffixRunIsMaximal(t, Space);
    var tail := t[|t| - b..];
    forall i | 0 <= i < |tail| ensures IsWhitespace(tail[i]) {
      assert InClass(t[|t| - b + i], Space);
    }
    assert b < |t| ==> !InClass(t[|t| - b - 1], Space);
  }

  /** Cutting maximal whitespace margins off `s` leaves a core that is empty
      exactly when `s` is all whitespace and that otherwise starts and ends
      with a non-whitespace character. */
  lemma MarginsCut(s: string, a: nat, b: nat, r: string)
    requires a + b <= |s| && r == s[a..|s| - b]
    requires AllWhitespace(s[..a]) && AllWhitespace(s[a..][|s[a..]| - b..])
    requires a < |s| ==> !IsWhitespace(s[a])
    requires b < |s[a..]| ==> !IsWhitespace(s[a..][|s[a..]| - b - 1])
    ensures r == [] <==> AllWhitespace(s)
    ensures r != [] ==> !IsWhitespace(r[0]) && !IsWhitespace(r[|r| - 1])
  {
    if a == |s| {
      AllMarginIsAll(s, a, b, r);
    } else {
      CoreEnds(s, a, b, r);
    }
  }

  /** A leading whitespace margin that covers the whole text. */
  lemma AllMarginIsAll(s: string, a: nat, b: nat, r: string)
    requires a == |s| && a + b <= |s| && r == s[a..|s| - b] && AllWhitespace(s[..a])
    ensures r == [] && AllWhitespace(s)
  {
    assert s[..a] == s;
  }

  /** A core that is not empty begins and ends where the margins stop. */
  lemma CoreEnds(s: string, a: nat, b: nat, r: string)
    requires a + b <= |s| && r == s[a..|s| - b] && a < |s|
    requires !IsWhitespace(s[a])
    requires b < |s[a..]| ==> !IsWhitespace(s[a..][|s[a..]| - b - 1])
    requires AllWhitespace(s[a..][|s[a..]| - b..])
    ensures r != [] && !AllWhitespace(s)
    ensures !IsWhitespace(r[0]) && !IsWhitespace(r[|r| - 1])
  {
    assert r[0] == s[a];
    assert r[|r| - 1] == s[a..][|s[a..]| - b - 1];
  }

  /** `r` sits inside `s` between two whitespace margins. */
  ghost predicate BetweenWhitespaceMargins(s: string, r: string) {
    exists k :: (0 <= k <= |s| - |r| && r == s[k..k + |r|]
                 && AllWhitespace(s[..k]) && AllWhitespace(s[k + |r|..]))
  }

  /** Cutting runs of whitespace off both ends leaves a core between
      whitespace margins. */
  lemma MarginsAround(s: string, a: nat, b: nat)
    requires a + b <= |s|
    requires AllWhitespace(s[..a]) && AllWhitespace(s[a..][|s[a..]| - b..])
    ensures BetweenWhitespaceMargins(s, s[a..|s| - b])
  {
    var r := s[a..|s| - b];
    assert r == s[a..a + |r|];
    assert s[a + |r|..] == s[a..][|s[a..]| - b..];
  }

  /** String.prototype.trim: the text without its whitespace margins. */
  function Trim(s: string): (r: string)
    ensures |r| <= |s|
    ensures r == [] <==> AllWhitespace(s)
    ensures r != [] ==> !IsWhitespace(r[0]) && !IsWhitespace(r[|r| - 1])
    ensures BetweenWhitespaceMargins(s, r)
  {
    var a := PrefixRun(s, Space);
    var b := SuffixRun(s[a..], Space);
    TrimCutEnds(s, a, b);
    TrimCutMargins(s, a, b);
    s[a..|s| - b]
  }

  /** What cutting the two margin runs leaves: empty exactly for an
      all-whitespace text, otherwise with non-whitespace ends. */
  lemma TrimCutEnds(s: string, a: nat, b: nat)
    requires a == PrefixRun(s, Space) && b == SuffixRun(s[a..], Space)
    ensures a + b <= |s|
    ensures s[a..|s| - b] == [] <==> AllWhitespace(s)
    ensures s[a..|s| - b] != [] ==> !IsWhitespace(s[a..|s| - b][0]) && !IsWhitespace(s[a..|s| - b][|s[a..|s| - b]| - 1])
  {
    LeadingSpace(s, a);
    TrailingSpace(s[a..], b);
    MarginsCut(s, a, b, s[a..|s| - b]);
  }

  /** Cutting the two margin runs leaves a core between whitespace margins. */
  lemma TrimCutMargins(s: string, a: nat, b: nat)
    requires a == PrefixRun(s, Space) && b == SuffixRun(s[a..], Space)
    ensures a + b <= |s|
    ensures BetweenWhitespaceMargins(s, s[a..|s| - b])
  {
    LeadingSpace(s, a);
    TrailingSpace(s[a..], b);
    MarginsAround(s, a, b);
  }

  /** `split(/\s+/)`: the pieces of `s` between its whitespace runs, in
      order. A whitespace run at either end yields an empty first or last
      piece; the empty string yields one empty piece. */
  function Split(s: string): (pieces: seq<string>)
    ensures |pieces| >= 1
    ensures forall i :: 0 <= i < |pieces| ==> NoWhitespace(pieces[i])
    decreases |s|
  {
    var n := PrefixRun(s, NonSpace);
    PrefixRunIsMaximal(s, NonSpace);
    if n == |s| then [s]
    else
      var g := PrefixRun(s[n..], Space);
      assert InClass(s[n..][0], Space);
      assert NoWhitespace(s[..n]) by {
        forall i | 0 <= i < n ensures !IsWhitespace(s[..n][i]) {
          assert InClass(s[i], NonSpace);
        }
      }
      [s[..n]] + Split(s[n + g..])
  }

  /** The whitespace runs that Split cuts out, in order. */
  ghost function Gaps(s: string): seq<string>
    decreases |s|
  {
    var n := PrefixRun(s, NonSpace);
    if n == |s| then []
    else
      var g := PrefixRun(s[n..], Space);
      [s[n..n + g]] + Gaps(s[n + g..])
  }

  /** Pieces interleaved with the gaps between them. */
  function Weave(pieces: seq<string>, gaps: seq<string>): string
    requires |pieces| == |gaps| + 1
    decreases |gaps|
  {
    if gaps == [] then pieces[0] else pieces[0] + gaps[0] + Weave(pieces[1..], gaps[1..])
  }

  /** What a whitespace split of `s` is: whitespace-free pieces separated by
      non-empty whitespace gaps that together spell `s`, where only the first
      and the last piece may be empty. */
  ghost predicate IsWhitespaceSplit(s: string, pieces: seq<string>, gaps: seq<string>) {
    && |pieces| == |gaps| + 1
    && (forall i :: 0 <= i < |pieces| ==> NoWhitespace(pieces[i]))
    && (forall i :: 0 <= i < |gaps| ==> gaps[i] != [] && AllWhitespace(gaps[i]))
    && (forall i :: 0 < i < |pieces| - 1 ==> pieces[i] != [])
    && Weave(pieces, gaps) == s
  }

  /** One step of Split and Gaps: the first piece, the first gap and the
      remainder of `s` after them. */
  lemma SplitStep(s: string) returns (p: string, gap: string, rest: string)
    requires PrefixRun(s, NonSpace) < |s|
    ensures s == p + gap + rest && |rest| < |s|
    ensures NoWhitespace(p) && gap != [] && AllWhitespace(gap)
    ensures rest != [] ==> !IsWhitespace(rest[0])
    ensures Split(s) == [p] + Split(rest) && Gaps(s) == [gap] + Gaps(rest)
  {
    var n := PrefixRun(s, NonSpace);
    PrefixRunIsMaximal(s, NonSpace);
    var t := s[n..];
    var g := PrefixRun(t, Space);
    PrefixRunIsMaximal(t, Space);
    assert InClass(t[0], Space);
    p, gap, rest := s[..n], t[..g], s[n + g..];
    assert t[..g] == s[n..n + g];
    forall i | 0 <= i < |p| ensures !IsWhitespace(p[i]) {
      assert InClass(s[i], NonSpace);
    }
    forall i | 0 <= i < |gap| ensures IsWhitespace(gap[i]) {
      assert InClass(t[i], Space);
    }
    if rest != [] {
      assert rest[0] == t[g];
    }
    SliceThree(s, n, n + g);
  }

  /** A whitespace split extends at the front by one more piece and gap. */
  lemma ConsWhitespaceSplit(rest: string, pieces: seq<string>, gaps: seq<string>, p: string, g: string)
    requires IsWhitespaceSplit(rest, pieces, gaps)
    requires NoWhitespace(p) && g != [] && AllWhitespace(g)
    requires |pieces| > 1 ==> pieces[0] != []
    ensures IsWhitespaceSplit(p + g + rest, [p] + pieces, [g] + gaps)
  {
    var ps, gs := [p] + pieces, [g] + gaps;
    assert ps[1..] == pieces && gs[1..] == gaps;
    forall i | 0 < i < |ps| - 1 ensures ps[i] != [] {
      assert ps[i] == pieces[i - 1];
    }
    forall i | 0 <= i < |ps| ensures NoWhitespace(ps[i]) {
      if i > 0 { assert ps[i] == pieces[i - 1]; }
    }
    forall i | 0 <= i < |gs| ensures gs[i] != [] && AllWhitespace(gs[i]) {
      if i > 0 { assert gs[i] == gaps[i - 1]; }
    }
  }

  /** Split and Gaps form a whitespace split of `s`; when `s` starts (ends)
      with a non-whitespace character the first (last) piece is non-empty. */
  lemma {:induction false} SplitIsWhitespaceSplit(s: string)
    ensures IsWhitespaceSplit(s, Split(s), Gaps(s))
    ensures s != [] && !IsWhitespace(s[0]) ==> Split(s)[0] != []
    ensures s != [] && !IsWhitespace(s[|s| - 1]) ==> Split(s)[|Split(s)| - 1] != []
    decreases |s|
  {
    if PrefixRun(s, NonSpace) == |s| {
      PrefixRunIsMaximal(s, NonSpace);
      forall i | 0 <= i < |s| ensures !IsWhitespace(s[i]) {
        assert InClass(s[i], NonSpace);
      }
    } else {
      var p, gap, rest := SplitStep(s);
      SplitIsWhitespaceSplit(rest);
      assert |Split(rest)| > 1 ==> rest != [];
      ConsWhitespaceSplit(rest, Split(rest), Gaps(rest), p, gap);
      if s != [] && !IsWhitespace(s[|s| - 1]) {
        assert rest != [] && rest[|rest| - 1] == s[|s| - 1];
      }
    }
  }

  /** Taking the first piece and gap off a whitespace split leaves a
      whitespace split of the rest, which starts with a non-whitespace
      character unless it is empty. */
  lemma UnconsWhitespaceSplit(s: string, pieces: seq<string>, gaps: seq<string>)
    requires IsWhitespaceSplit(s, pieces, gaps) && gaps != []
    ensures s == pieces[0] + gaps[0] + Weave(pieces[1..], gaps[1..])
    ensures IsWhitespaceSplit(Weave(pieces[1..], gaps[1..]), pieces[1..], gaps[1..])
    ensures Weave(pieces[1..], gaps[1..]) != [] ==> !IsWhitespace(Weave(pieces[1..], gaps[1..])[0])
  {
    var tail := Weave(pieces[1..], gaps[1..]);
    forall i | 0 < i < |pieces[1..]| - 1 ensures pieces[1..][i] != [] {
      assert pieces[1..][i] == pieces[i + 1];
    }
    if tail != [] {
      assert pieces[1] != [] by {
        if |gaps| == 1 {
          assert tail == pieces[1];
        }
      }
      assert tail[0] == pieces[1][0] by {
        if |gaps| > 1 {
          assert tail == pieces[1] + (gaps[1] + Weave(pieces[2..], gaps[2..]));
        }
      }
    }
  }

  /** A whitespace-free piece followed by a maximal whitespace gap is exactly
      the first step Split and Gaps take. */
  lemma FirstCut(s: string, p: string, g: string, tail: string)
    requires s == p + g + tail
    requires NoWhitespace(p) && g != [] && AllWhitespace(g)
    requires tail != [] ==> !IsWhitespace(tail[0])
    ensures Split(s) == [p] + Split(tail) && Gaps(s) == [g] + Gaps(tail)
  {
    assert s[|p|] == g[0];
    forall i | 0 <= i < |p| ensures !IsWhitespace(s[i]) {
      assert s[i] == p[i];
    }
    PrefixRunUnique(s, NonSpace, |p|);
    var t := s[|p|..];
    assert t == g + tail;
    if tail != [] {
      assert t[|g|] == tail[0];
    }
    forall i | 0 <= i < |g| ensures IsWhitespace(t[i]) {
      assert t[i] == g[i];
    }
    PrefixRunUnique(t, Space, |g|);
    assert s[|p| + |g|..] == tail;
    assert s[..|p|] == p;
    assert s[|p|..|p| + |g|] == g;
  }

  /** A whitespace split is unique: it is the one Split and Gaps compute. */
  lemma {:induction false} WhitespaceSplitUnique(s: string, pieces: seq<string>, gaps: seq<string>)
    requires IsWhitespaceSplit(s, pieces, gaps)
    ensures pieces == Split(s) && gaps == Gaps(s)
    decreases |gaps|
  {
    if gaps == [] {
      PrefixRunUnique(s, NonSpace, |s|);
    } else {
      var tail := Weave(pieces[1..], gaps[1..]);
      UnconsWhitespaceSplit(s, pieces, gaps);
      FirstCut(s, pieces[0], gaps[0], tail);
      WhitespaceSplitUnique(tail, pieces[1..], gaps[1..]);
      assert pieces == [pieces[0]] + pieces[1..];
      assert gaps == [gaps[0]] + gaps[1..];
    }
  }

  /** `.filter((w) => w.length > 0)`: the pieces without the empty ones. */
  function DropEmpty(pieces: seq<string>): (r: seq<string>)
    ensures forall i :: 0 <= i < |r| ==> r[i] != [] && r[i] in pieces
    ensures (forall i :: 0 <= i < |pieces| ==> pieces[i] != []) ==> r == pieces
    ensures (forall i :: 0 <= i < |pieces| ==> pieces[i] == []) ==> r == []
  {
    if pieces == [] then []
    else if pieces[0] == [] then DropEmpty(pieces[1..])
    else [pieces[0]] + DropEmpty(pieces[1..])
  }

  /** Filtering a single piece keeps it exactly when it is non-empty. */
  lemma DropEmptySingle(x: string)
    ensures DropEmpty([x]) == (if x == [] then [] else [x])
  {
    assert [x][1..] == [];
  }

  /** Filtering distributes over concatenation. With DropEmptySingle this
      fixes the filter on every input: each non-empty piece is kept, once and
      in its place, and each empty one is dropped. */
  lemma {:induction false} DropEmptyConcat(a: seq<string>, b: seq<string>)
    ensures DropEmpty(a + b) == DropEmpty(a) + DropEmpty(b)
    decreases |a|
  {
    if a == [] {
      assert a + b == b;
    } else {
      assert (a + b)[0] == a[0];
      assert (a + b)[1..] == a[1..] + b;
      DropEmptyConcat(a[1..], b);
    }
  }

  /** The raw tokens of a text, as the trim/split/filter pipeline yields them. */
  function Tokens(text: string): (r: seq<string>)
    ensures forall i :: 0 <= i < |r| ==> r[i] != [] && NoWhitespace(r[i])
  {
    DropEmpty(Split(Trim(text)))
  }

  /** When nothing is left after trimming, Split yields one empty piece and
      the filter removes it. */
  lemma BlankHasNoTokens(text: string)
    requires Trim(text) == []
    ensures Tokens(text) == []
  {
    assert Split([]) == [[]];
  }

  /** A non-empty string without whitespace margins splits into non-empty
      pieces only. */
  lemma UnpaddedSplitHasNoEmptyPiece(t: string)
    requires t != [] && !IsWhitespace(t[0]) && !IsWhitespace(t[|t| - 1])
    ensures IsWhitespaceSplit(t, Split(t), Gaps(t))
    ensures forall i :: 0 <= i < |Split(t)| ==> Split(t)[i] != []
  {
    SplitIsWhitespaceSplit(t);
    var ps := Split(t);
    forall i | 0 <= i < |ps| ensures ps[i] != [] {
      if 0 < i < |ps| - 1 {
        assert IsWhitespaceSplit(t, ps, Gaps(t));
      }
    }
  }

  /** The tokens of a text are its maximal whitespace-free runs, in order:
      none for a text of whitespace only; otherwise non-empty pieces that,
      interleaved with the whitespace runs between them, spell the trimmed
      text. The filter never removes anything from a non-empty trimmed text. */
  lemma TokensAreWhitespaceRuns(text: string)
    ensures AllWhitespace(text) ==> Tokens(text) == []
    ensures !AllWhitespace(text) ==>
              Tokens(text) == Split(Trim(text))
              && IsWhitespaceSplit(Trim(text), Tokens(text), Gaps(Trim(text)))
    ensures forall i :: 0 <= i < |Tokens(text)| ==> Tokens(text)[i] != []
  {
    var t := Trim(text);
    if t == [] {
      BlankHasNoTokens(text);
    } else {
      UnpaddedSplitHasNoEmptyPiece(t);
    }
  }

  /** Tokens joined by single spaces. */
  function JoinWithSpaces(tokens: seq<string>): string {
    if tokens == [] then "" else Weave(tokens, seq(|tokens| - 1, _ => " "))
  }

  /** A text with no whitespace margins is its own trim. */
  lemma TrimOfUnpadded(s: string)
    requires s == [] || (!IsWhitespace(s[0]) && !IsWhitespace(s[|s| - 1]))
    ensures Trim(s) == s
  {
  }

  /** Re-tokenizing tokens joined by spaces gives back exactly those tokens. */
  lemma TokensOfJoin(tokens: seq<string>)
    requires forall i :: 0 <= i < |tokens| ==> tokens[i] != [] && NoWhitespace(tokens[i])
    ensures Tokens(JoinWithSpaces(tokens)) == tokens
  {
    if tokens == [] {
      assert Split("") == [""];
    } else {
      var s := JoinWithSpaces(tokens);
      var gaps := seq(|tokens| - 1, _ => " ");
      assert IsWhitespaceSplit(s, tokens, gaps);
      WhitespaceSplitUnique(s, tokens, gaps);
      SplitIsWhitespaceSplit(s);
      WeaveEnds(tokens, gaps);
      TrimOfUnpadded(s);
    }
  }

  /** A weave starts with its first piece and ends with its last one. */
  lemma {:induction false} WeaveEnds(pieces: seq<string>, gaps: seq<string>)
    requires |pieces| == |gaps| + 1
    requires pieces[|pieces| - 1] != []
    ensures var w := Weave(pieces, gaps);
      && w != []
      && (pieces[0] != [] ==> w[0] == pieces[0][0])
      && w[|w| - 1] == pieces[|pieces| - 1][|pieces[|pieces| - 1]| - 1]
    decreases |gaps|
  {
    if gaps != [] {
      assert pieces[1..][|pieces[1..]| - 1] == pieces[|pieces| - 1];
      WeaveEnds(pieces[1..], gaps[1..]);
    }
  }

  /** What a reading unit built from the raw token `token` holds: the token
      itself, its fixation point (inside the token), its trailing punctuation
      (a suffix of the token) and the pause computed from the RAW token and its
      two punctuation fragments, so that the length bonuses count punctuation. */
  ghost predicate IsReadingUnitOf(w: Word, token: string) {
    var e := ExtractPunctuation(token);
    && w.text == token
    && w.orp == CalculateORP(token) && w.orp < |token|
    && w.punctuation == e.trailing
    && |w.punctuation| <= |token| && token[|token| - |w.punctuation|..] == w.punctuation
    && w.pauseAfter == PauseRules(token, e.leading, e.trailing)
  }

  /** The reading unit of one raw token; the clean word is computed by the
      extraction but not used. */
  function MakeWord(rawWord: string): (w: Word)
    requires rawWord != []
    ensures IsReadingUnitOf(w, rawWord) && w.pauseAfter <= 1050
  {
    var e := ExtractPunctuation(rawWord);
    Word(rawWord, CalculateORP(rawWord), PauseRules(rawWord, e.leading, e.trailing), e.trailing)
  }

  /** The tokens of a text are non-empty and whitespace-free, and there are
      none exactly when the text is all whitespace. */
  lemma TokensAreWords(text: string)
    ensures Tokens(text) == [] <==> AllWhitespace(text)
    ensures forall i :: 0 <= i < |Tokens(text)| ==> Tokens(text)[i] != [] && NoWhitespace(Tokens(text)[i])
  {
    TokensAreWhitespaceRuns(text);
    if !AllWhitespace(text) {
      assert IsWhitespaceSplit(Trim(text), Tokens(text), Gaps(Trim(text)));
    }
  }

  /** parseText: one reading unit per whitespace-delimited token, in order;
      nothing for an empty or whitespace-only text. */
  function ParseText(text: string): (words: seq<Word>)
    ensures |words| == |Tokens(text)|
    ensures words == [] <==> AllWhitespace(text)
    ensures forall i :: 0 <= i < |words| ==> IsReadingUnitOf(words[i], Tokens(text)[i])
    ensures forall i :: 0 <= i < |words| ==> words[i].text != [] && NoWhitespace(words[i].text)
    ensures forall i :: 0 <= i < |words| ==> words[i].pauseAfter <= 1050
  {
    TokensAreWords(text);
    if text == [] || Trim(text) == [] then []
    else
      var rawWords := Tokens(text);
      seq(|rawWords|, i requires 0 <= i < |rawWords| => MakeWord(rawWords[i]))
  }

  /** A trailing comma is trailing punctuation. */
  lemma ExtractTrailingComma()
    ensures ExtractPunctuation("Hello,") == Extraction("", "Hello", ",")
  {
    ExtractionUnique("Hello,", Extraction("", "Hello", ","));
  }

  /** A trailing exclamation mark is trailing punctuation. */
  lemma ExtractTrailingBang()
    ensures ExtractPunctuation("world!") == Extraction("", "world", "!")
  {
    ExtractionUnique("world!", Extraction("", "world", "!"));
  }

  /** Brackets and quotes are stripped at both ends. */
  lemma ExtractQuotedInBrackets()
    ensures ExtractPunctuation("(\"yes\"),") == Extraction("(\"", "yes", "\"),")
  {
    ExtractionUnique("(\"yes\"),", Extraction("(\"", "yes", "\"),"));
  }

  /** The apostrophe inside a contraction stays in the word. */
  lemma ExtractContraction()
    ensures ExtractPunctuation("don't") == Extraction("", "don't", "")
  {
    ExtractionUnique("don't", Extraction("", "don't", ""));
  }

  /** In a token of punctuation only, the leading run stops at the first
      character that is not opening punctuation and the trailing run takes
      the rest, leaving an empty clean word. */
  lemma ExtractPunctuationOnly()
    ensures ExtractPunctuation("(...)") == Extraction("(", "", "...)")
  {
    ExtractionUnique("(...)", Extraction("(", "", "...)"));
  }

  /** Empty and blank texts have no reading units. */
  lemma ParseTextOfBlank()
    ensures ParseText("") == [] && ParseText("   ") == []
  {
    assert AllWhitespace("   ");
  }

  /** "Hello, world!" has two tokens. */
  lemma TokensHelloWorld()
    ensures Tokens("Hello, world!") == ["Hello,", "world!"]
  {
    var toks := ["Hello,", "world!"];
    assert seq(1, _ => " ") == [" "];
    assert toks[1..] == ["world!"] && [" "][1..] == [];
    assert Weave(toks, [" "]) == "Hello," + " " + "world!";
    assert "Hello, world!" == JoinWithSpaces(toks);
    TokensOfJoin(toks);
  }

  /** "Hello, world!" has two reading units: "Hello," keeps its comma as
      trailing punctuation, "world!" its exclamation mark. */
  lemma ParseTextHelloWorld()
    ensures var ws := ParseText("Hello, world!");
      && |ws| == 2
      && ws[0].text == "Hello," && ws[0].punctuation == ","
      && ws[1].text == "world!" && ws[1].punctuation == "!"
  {
    var ws := ParseText("Hello, world!");
    TokensHelloWorld();
    assert ws[0].text == "Hello," && ws[1].text == "world!";
    ExtractTrailingComma();
    ExtractTrailingBang();
    assert ws[0].punctuation == ExtractPunctuation("Hello,").trailing;
    assert ws[1].punctuation == ExtractPunctuation("world!").trailing;
  }

  /** A text without whitespace is one token. */
  lemma SingleToken(t: string)
    requires t != [] && NoWhitespace(t)
    ensures Tokens(t) == [t]
  {
    assert Weave([t], []) == t;
    TokensOfJoin([t]);
  }

  /** The comma and the 8-character bonus of "however,": 150 + 50 ms. */
  lemma PauseOfHowever()
    ensures PauseRules("however,", "", ",") == 200
  {
    assert "" + "," == ",";
    assert ","[0] in ",";
    assert !ContainsAny(",", SentenceEndChars) && !ContainsAny(",", ClauseChars);
    assert !ContainsAny(",", QuoteChars) && !ContainsAny(",", BracketChars);
  }

  /** The clean word of "however," has 7 characters, the raw token 8. */
  lemma ExtractHowever()
    ensures ExtractPunctuation("however,") == Extraction("", "however", ",")
  {
    ExtractionUnique("however,", Extraction("", "however", ","));
  }

  /** Because parseText hands the raw token to the pause calculator, its
      length bonuses count punctuation: the reading unit of "however," earns
      the 8-character bonus although its clean word (ExtractHowever) has only
      7 characters. */
  lemma PauseCountsRawLength(text: string, i: nat)
    requires 0 <= i < |Tokens(text)| && Tokens(text)[i] == "however,"
    ensures ParseText(text)[i].pauseAfter == 200
  {
    ExtractHowever();
    PauseOfHowever();
  }
}

