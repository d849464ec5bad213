/** The whole-word matcher and the pattern extractor of the rule checker. Text is
    a sequence of bytes, taken as characters; case folding is that of ASCII. */
module WordMatcher {
  import opened Common
  import opened Sequences

  predicate IsAlphaNum(c: char) {
    'a' <= c <= 'z' || 'A' <= c <= 'Z' || '0' <= c <= '9' || c == '_'
  }

  /** By their codes: the ASCII digits, capitals, underscore and small letters. */
  lemma WordCharacters(c: char)
    ensures var code := c as int;
            IsAlphaNum(c) <==> 48 <= code <= 57 || 65 <= code <= 90 || code == 95 || 97 <= code <= 122
  {
  }

  predicate OccursAt(text: string, word: string, p: int) {
    0 <= p && p + |word| <= |text| && text[p..p + |word|] == word
  }

  /** word stands at p with no word character on either side. */
  predicate WholeWordAt(text: string, word: string, p: int) {
    && OccursAt(text, word, p)
    && (p == 0 || !IsAlphaNum(text[p - 1]))
    && (p + |word| == |text| || !IsAlphaNum(text[p + |word|]))
  }

  /** The text splits there into what is before, the word, and what is after, and the
      word is not a piece of a longer one. */
  lemma WholeWordSplits(text: string, word: string, p: nat)
    ensures WholeWordAt(text, word, p) <==>
              exists before, after: string ::
                && text == before + word + after && |before| == p
                && (before == "" || !IsAlphaNum(before[|before| - 1])) && (after == "" || !IsAlphaNum(after[0]))
  {
    if WholeWordAt(text, word, p) {
      assert text == text[..p] + word + text[p + |word|..];
    }
  }

  ghost predicate HasWholeWord(text: string, word: string) {
    exists p :: WholeWordAt(text, word, p)
  }

  /** What the search loop finds: it never looks at the very end of a non-empty text. */
  ghost predicate Found(text: string, word: string) {
    exists p :: WholeWordAt(text, word, p) && (p == 0 || p < |text|)
  }

  lemma NonEmptyWordIsFound(text: string, word: string)
    requires word != ""
    ensures Found(text, word) <==> HasWholeWord(text, word)
  {
    if p :| WholeWordAt(text, word, p) {
      assert p < |text|;
    }
  }

  /** For a non-empty word that is every whole word. The empty word is missed exactly
      in a text that starts with a word character, ends in another character, and
      has no two of those other characters side by side. */
  lemma FoundIffWholeWord(text: string, word: string)
    ensures word != "" ==> (Found(text, word) <==> HasWholeWord(text, word))
    ensures word == "" ==>
              (HasWholeWord(text, word) && !Found(text, word) <==>
                && text != "" && IsAlphaNum(text[0]) && !IsAlphaNum(text[|text| - 1])
                && forall i, j :: 0 <= i && i + 1 == j < |text| ==> IsAlphaNum(text[i]) || IsAlphaNum(text[j]))
  {
    if word != "" {
      NonEmptyWordIsFound(text, word);
    } else {
      assert forall p :: OccursAt(text, word, p) <==> 0 <= p <= |text|;
      assert WholeWordAt(text, word, 0) <==> text == "" || !IsAlphaNum(text[0]);
      assert text != "" ==> (WholeWordAt(text, word, |text|) <==> !IsAlphaNum(text[|text| - 1]));
      forall i, j | 0 <= i && i + 1 == j < |text|
        ensures WholeWordAt(text, word, j) <==> !IsAlphaNum(text[i]) && !IsAlphaNum(text[j])
      {
      }
    }
  }

  /** strings.Index from a starting point: the first occurrence, or -1. */
  method IndexFrom(text: string, word: string, start: nat) returns (pos: int)
    requires start <= |text|
    ensures pos == -1 ==> forall p :: start <= p ==> !OccursAt(text, word, p)
    ensures pos != -1 ==>
              start <= pos && OccursAt(text, word, pos) && forall p :: start <= p < pos ==> !OccursAt(text, word, p)
  {
    var i := start;
    while i + |word| <= |text|
      invariant start <= i
      invariant forall p :: start <= p < i ==> !OccursAt(text, word, p)
    {
      if text[i..i + |word|] == word {
        return i;
      }
      i := i + 1;
    }
    return -1;
  }

  /** True exactly when some occurrence has boundaries on both sides, overlapping
      occurrences included. An empty word is only looked for before the end. */
  method ContainsWord(text: string, word: string) returns (found: bool)
    ensures found <==> Found(text, word)
    ensures word != "" ==> (found <==> HasWholeWord(text, word))
  {
    if word != "" {
      NonEmptyWordIsFound(text, word);
    }
    var idx := 0;
    while true
      invariant 0 <= idx <= |text| && (idx == 0 || idx < |text|)
      invariant forall p :: 0 <= p < idx ==> !WholeWordAt(text, word, p)
      decreases |text| - idx
    {
      var pos := IndexFrom(text, word, idx);
      if pos == -1 {
        return false;
      }
      assert word == "" ==> OccursAt(text, word, idx);
      var end := pos + |word|;
      var leftOK := pos == 0 || !IsAlphaNum(text[pos - 1]);
      var rightOK := end >= |text| || !IsAlphaNum(text[end]);
      if leftOK && rightOK {
        assert WholeWordAt(text, word, pos);
        return true;
      }
      idx := pos + 1;
      if idx >= |text| {
        return false;
      }
    }
  }

  function LowerChar(c: char): char {
    if 'A' <= c <= 'Z' then ((c as int) + 32) as char else c
  }

  function Lower(s: string): string {
    MapSeq(s, LowerChar)
  }

  /** A capital becomes the small letter, 32 codes further on; nothing else changes. */
  lemma LowerFolds(s: string, i: nat)
    requires i < |s|
    ensures |Lower(s)| == |s|
    ensures var code := s[i] as int;
            Lower(s)[i] as int == if 65 <= code <= 90 then code + 32 else code
  {
  }

  /** The first listed pattern that stands in the description as a whole word. */
  method CheckForbiddenPatterns(action: string, forbidden: seq<string>) returns (r: Option<string>)
    ensures r.None? <==> forall k :: 0 <= k < |forbidden| ==> !Found(Lower(action), forbidden[k])
    ensures r.Some? ==>
              exists k :: 0 <= k < |forbidden| && r.value == forbidden[k] && Found(Lower(action), forbidden[k])
                          && forall m :: 0 <= m < k ==> !Found(Lower(action), forbidden[m])
  {
    var lower := Lower(action);
    for i := 0 to |forbidden|
      invariant forall k :: 0 <= k < i ==> !Found(lower, forbidden[k])
    {
      var found := ContainsWord(lower, forbidden[i]);
      if found {
        return Some(forbidden[i]);
      }
    }
    return None;
  }

  // ---- Extraction ---------------------------------------------------------

  /** The common English words, by length. */
  function CommonWords(length: nat): set<string> {
    match length
    case 1 => {
      "a", "i"}
    case 2 => {
      "an", "is", "be", "to", "of", "or", "in", "on", "at", "by", "it", "do", "if", "so", "we", "my", "me"}
    case 3 => {
      "the", "are", "was", "and", "for", "how", "did", "can", "may", "has", "had", "but", "not", "all", "any",
      "too", "new", "own", "our", "you", "fix", "fly"}
    case 4 => {
      "with", "from", "that", "this", "what", "when", "does", "will", "have", "been", "then", "else", "some",
      "each", "such", "than", "very", "just", "also", "only", "more", "most", "last", "same", "them", "they",
      "your", "need", "code", "text", "tool"}
    case 5 => {
      "which", "where", "would", "could", "might", "shall", "being", "every", "other", "first", "their", "tools"}
    case 6 => {
      "should", "create", "source"}
    case 7 => {
      "problem", "scripts"}
    case 8 => {
      "original", "reusable"}
    case 10 => {
      "processing"}
    case 12 => {
      "modification"}
    case _ => {}
  }

  predicate IsToolOrTechnique(word: string) {
    |word| >= 2 && word !in CommonWords(|word|)
  }

  function TrimRight(s: string, cut: string): string {
    if s != [] && s[|s| - 1] in cut then TrimRight(s[..|s| - 1], cut) else s
  }

  function TrimLeft(s: string, cut: string): string {
    if s != [] && s[0] in cut then TrimLeft(s[1..], cut) else s
  }

  predicate AllOf(s: string, cut: string) {
    forall i :: 0 <= i < |s| ==> s[i] in cut
  }

  lemma {:induction false} TrimRightCuts(s: string, cut: string) returns (tail: string)
    ensures s == TrimRight(s, cut) + tail && AllOf(tail, cut)
    ensures TrimRight(s, cut) == "" || TrimRight(s, cut)[|TrimRight(s, cut)| - 1] !in cut
  {
    if s != [] && s[|s| - 1] in cut {
      tail := TrimRightCuts(s[..|s| - 1], cut);
      tail := tail + [s[|s| - 1]];
    } else {
      tail := "";
    }
  }

  lemma {:induction false} TrimLeftCuts(s: string, cut: string) returns (head: string)
    ensures s == head + TrimLeft(s, cut) && AllOf(head, cut)
    ensures TrimLeft(s, cut) == "" || TrimLeft(s, cut)[0] !in cut
  {
    if s != [] && s[0] in cut {
      head := TrimLeftCuts(s[1..], cut);
      head := [s[0]] + head;
    } else {
      head := "";
    }
  }

  predicate EndsIn(s: string, cut: string) {
    s != "" && s[|s| - 1] in cut
  }

  function TrimAll(s: string, marks: string, left: string, right: string): string {
    TrimRight(TrimLeft(TrimRight(s, marks), left), right)
  }

  function CleanPattern(s: string): string {
    TrimAll(s, ".,;:!?", "\"'(", "\"')")
  }

  /** The marks go from the end, then what is to go on the left and on the right, all
      as far as they reach. */
  ghost predicate Cuts(s: string, clean: string, marks: string, left: string, right: string) {
    exists head, tail, end: string ::
      && s == head + clean + tail + end
      && AllOf(head, left) && AllOf(tail, right) && AllOf(end, marks)
      && (clean != "" ==> clean[0] !in left) && !EndsIn(clean, right) && !EndsIn(head + clean + tail, marks)
  }

  lemma TrimAllCuts(s: string, marks: string, left: string, right: string)
    ensures Cuts(s, TrimAll(s, marks, left, right), marks, left, right)
  {
    var unmarked := TrimRight(s, marks);
    var bare := TrimLeft(unmarked, left);
    var end := TrimRightCuts(s, marks);
    var head := TrimLeftCuts(unmarked, left);
    var tail := TrimRightCuts(bare, right);
    var clean := TrimAll(s, marks, left, right);
    assert head + clean + tail == unmarked;
    assert s == head + clean + tail + end;
    assert clean != "" ==> clean[0] == bare[0];
  }

  /** Punctuation goes from the end, then quotes and brackets from both ends. */
  lemma CleanPatternCuts(s: string)
    ensures Cuts(s, CleanPattern(s), ".,;:!?", "\"'(", "\"')")
  {
    TrimAllCuts(s, ".,;:!?", "\"'(", "\"')");
  }

  predicate IsSpace(c: char) {
    c == ' ' || c == '\t' || c == '\n' || c == '\r' || c == '\U{0B}' || c == '\U{0C}'
  }

  /** By their codes: the blank, and tab to carriage return. */
  lemma SpaceCharacters(c: char)
    ensures IsSpace(c) <==> c as int == 32 || 9 <= c as int <= 13
  {
  }

  /** strings.Fields: the maximal runs of non-space characters. */
  function Fields(s: string): seq<string> {
    FieldsFrom(s, "")
  }

  /** A word of no characters is none. */
  function Closed(word: string): seq<string> {
    if word == "" then [] else [word]
  }

  function FieldsFrom(s: string, word: string): seq<string> {
    if s == "" then Closed(word)
    else if IsSpace(s[0]) then Closed(word) + FieldsFrom(s[1..], "")
    else FieldsFrom(s[1..], word + [s[0]])
  }

  /** word stands at p, without a space in it or a character other than a space before it. */
  ghost predicate Begun(text: string, p: nat, word: string) {
    && p + |word| <= |text| && text[p..p + |word|] == word
    && (forall i :: 0 <= i < |word| ==> !IsSpace(word[i]))
    && (p > 0 ==> IsSpace(text[p - 1]))
  }

  /** It is not empty, and ends there too. */
  ghost predicate RunAt(text: string, p: nat, word: string) {
    word != "" && Begun(text, p, word) && (p + |word| < |text| ==> IsSpace(text[p + |word|]))
  }

  ghost predicate InRun(words: seq<string>, at: seq<nat>, p: nat) {
    |at| == |words| && exists i :: 0 <= i < |words| && at[i] <= p < at[i] + |words[i]|
  }

  /** words are the runs of the text from start on, at the increasing positions at. */
  ghost predicate Runs(text: string, start: nat, words: seq<string>, at: seq<nat>) {
    && |at| == |words| && (forall i, j :: 0 <= i < j < |at| ==> at[i] < at[j])
    && (forall i :: 0 <= i < |at| ==> start <= at[i] && RunAt(text, at[i], words[i]))
    && (forall p: nat :: start <= p < |text| && !IsSpace(text[p]) ==> InRun(words, at, p))
  }

  lemma RunsAfterSpace(text: string, start: nat, words: seq<string>, at: seq<nat>)
    requires start < |text| && IsSpace(text[start]) && Runs(text, start + 1, words, at)
    ensures Runs(text, start, words, at)
  {
  }

  lemma InRunAfter(text: string, start: nat, word: string, words: seq<string>, at: seq<nat>, p: nat)
    requires |at| == |words| && (start <= p < start + |word| || InRun(words, at, p))
    ensures InRun([word] + words, [start] + at, p)
  {
    var ws, ps := [word] + words, [start] + at;
    assert ps[0] == start && ws[0] == word;
    if InRun(words, at, p) {
      var i :| 0 <= i < |words| && at[i] <= p < at[i] + |words[i]|;
      assert ps[i + 1] == at[i] && ws[i + 1] == words[i];
    }
  }

  lemma RunsAfterWord(text: string, start: nat, word: string, words: seq<string>, at: seq<nat>)
    requires RunAt(text, start, word) && Runs(text, start + |word|, words, at)
    ensures Runs(text, start, [word] + words, [start] + at)
  {
    var ws, ps := [word] + words, [start] + at;
    forall p: nat | start <= p < |text| && !IsSpace(text[p])
      ensures InRun(ws, ps, p)
    {
      InRunAfter(text, start, word, words, at, p);
    }
    forall i | 0 <= i < |ps|
      ensures start <= ps[i] && RunAt(text, ps[i], ws[i]) && (i > 0 ==> start < ps[i])
    {
      if i > 0 {
        assert ps[i] == at[i - 1] && ws[i] == words[i - 1];
      }
    }
  }

  lemma BegunGrows(text: string, p: nat, word: string)
    requires Begun(text, p, word) && p + |word| < |text| && !IsSpace(text[p + |word|])
    ensures Begun(text, p, word + [text[p + |word|]])
  {
  }

  /** The word begun ends here, if there is one. */
  lemma RunsAfterBegun(text: string, p: nat, word: string, words: seq<string>, at: seq<nat>) returns (all: seq<nat>)
    requires Begun(text, p, word) && (p + |word| < |text| ==> IsSpace(text[p + |word|]))
    requires Runs(text, p + |word|, words, at)
    ensures Runs(text, p, Closed(word) + words, all)
  {
    if word == "" {
      assert [] + words == words;
      all := at;
    } else {
      RunsAfterWord(text, p, word, words, at);
      all := [p] + at;
    }
  }

  lemma BegunAfterSpace(text: string, n: nat)
    requires n < |text| && IsSpace(text[n])
    ensures Begun(text, n + 1, "")
  {
  }

  lemma FieldsStep(text: string, n: nat, word: string)
    requires n <= |text|
    ensures n == |text| ==> FieldsFrom(text[n..], word) == Closed(word) + []
    ensures n < |text| && IsSpace(text[n]) ==>
              FieldsFrom(text[n..], word) == Closed(word) + FieldsFrom(text[n + 1..], "")
    ensures n < |text| && !IsSpace(text[n]) ==>
              FieldsFrom(text[n..], word) == FieldsFrom(text[n + 1..], word + [text[n]])
  {
    if n < |text| {
      assert text[n..][0] == text[n] && text[n..][1..] == text[n + 1..];
    }
  }

  lemma FieldsAtEnd(text: string, p: nat, word: string) returns (at: seq<nat>)
    requires Begun(text, p, word) && p + |word| == |text|
    ensures Runs(text, p, FieldsFrom(text[p + |word|..], word), at)
  {
    FieldsStep(text, p + |word|, word);
    at := RunsAfterBegun(text, p, word, [], []);
  }

  lemma FieldsAtSpace(text: string, p: nat, word: string, n: nat, words: seq<string>, after: seq<nat>)
      returns (at: seq<nat>)
    requires Begun(text, p, word) && n == p + |word| && n < |text| && IsSpace(text[n])
    requires words == FieldsFrom(text[n + 1..], "") && Runs(text, n + 1, words, after)
    ensures Runs(text, p, FieldsFrom(text[n..], word), at)
  {
    FieldsStep(text, n, word);
    RunsAfterSpace(text, n, words, after);
    at := RunsAfterBegun(text, p, word, words, after);
  }

  lemma FieldsInWord(text: string, p: nat, word: string, n: nat)
    requires Begun(text, p, word) && n == p + |word| && n < |text| && !IsSpace(text[n])
    ensures Begun(text, p, word + [text[n]]) && |word + [text[n]]| == |word| + 1
    ensures FieldsFrom(text[n..], word) == FieldsFrom(text[n + 1..], word + [text[n]])
  {
    FieldsStep(text, n, word);
    BegunGrows(text, p, word);
  }

  /** The scan at n in the middle of the text, with the word it has begun at p: words
      is what it returns. */
  lemma {:induction false} FieldsFromAreRuns(text: string, p: nat, word: string, n: nat, words: seq<string>)
      returns (at: seq<nat>)
    requires Begun(text, p, word) && n == p + |word| && words == FieldsFrom(text[n..], word)
    ensures Runs(text, p, words, at)
    decreases |text| - n
  {
    if n == |text| {
      at := FieldsAtEnd(text, p, word);
    } else if IsSpace(text[n]) {
      var more := FieldsFrom(text[n + 1..], "");
      BegunAfterSpace(text, n);
      at := FieldsFromAreRuns(text, n + 1, "", n + 1, more);
      at := FieldsAtSpace(text, p, word, n, more, at);
    } else {
      FieldsInWord(text, p, word, n);
      at := FieldsFromAreRuns(text, p, word + [text[n]], n + 1, words);
    }
  }

  /** Fields lists exactly the maximal runs of non-space characters, in order. */
  lemma FieldsAreRuns(text: string) returns (at: seq<nat>)
    ensures Runs(text, 0, Fields(text), at)
  {
    assert text[0..] == text;
    at := FieldsFromAreRuns(text, 0, "", 0, Fields(text));
  }

  function Alternatives(word: string): seq<string> {
    if word == "python" || word == "python3" then ["sed", "awk", "perl"]
    else if word == "curl" then ["wget", "httpie"]
    else if word == "wget" then ["curl"]
    else []
  }

  /** Which words stand in for which. */
  lemma AlternativesInWords(word: string, x: string)
    ensures x in Alternatives(word) <==>
              || ((word == "python" || word == "python3") && (x == "sed" || x == "awk" || x == "perl"))
              || (word == "curl" && (x == "wget" || x == "httpie"))
              || (word == "wget" && x == "curl")
  {
  }

  lemma SedAwkPerlAreTools()
    ensures IsToolOrTechnique("sed") && IsToolOrTechnique("awk") && IsToolOrTechnique("perl")
  {
    assert "sed"[0] == 's' && "awk"[1] == 'w' && "perl"[0] == 'p';
  }

  lemma FetchersAreTools()
    ensures IsToolOrTechnique("wget") && IsToolOrTechnique("httpie") && IsToolOrTechnique("curl")
  {
  }

  lemma AlternativesAreTools(word: string)
    ensures forall a :: a in Alternatives(word) ==> IsToolOrTechnique(a)
  {
    SedAwkPerlAreTools();
    FetchersAreTools();
  }

  predicate Negates(w: string) {
    w == "no" || w == "not" || w == "never" || w == "without"
  }

  /** The word "no x" forbids, before cleaning. */
  function NegatedAt(words: seq<string>, i: nat): Option<string>
    requires i < |words|
  {
    if Negates(words[i]) && i + 1 < |words| then Some(words[i + 1]) else None
  }

  /** The word "instead of x" forbids, before cleaning. */
  function InsteadAt(words: seq<string>, i: nat): Option<string>
    requires i < |words|
  {
    if words[i] == "instead" && i + 2 < |words| && words[i + 1] == "of" then Some(words[i + 2]) else None
  }

  /** The word "use x" or "use only x" requires, before cleaning. */
  function RequiredAt(words: seq<string>, i: nat): Option<string>
    requires i < |words|
  {
    if words[i] == "use" && i + 1 < |words| then
      if words[i + 1] == "only" && i + 2 < |words| then Some(words[i + 2]) else Some(words[i + 1])
    else None
  }

  function ForbiddenCandidates(words: seq<string>): seq<Option<string>> {
    seq(|words|, i requires 0 <= i < |words| => NegatedAt(words, i)) +
    seq(|words|, i requires 0 <= i < |words| => InsteadAt(words, i))
  }

  /** "only x" counts at the start of the text. */
  function RequiredCandidates(words: seq<string>): seq<Option<string>> {
    seq(|words|, i requires 0 <= i < |words| => RequiredAt(words, i)) +
    if |words| > 1 && words[0] == "only" then [Some(words[1])] else []
  }

  /** x is one of the candidates once cleaned, and the tool test admits it. */
  ghost predicate Names(candidates: seq<Option<string>>, x: string) {
    IsToolOrTechnique(x) && exists c :: c in candidates && c.Some? && CleanPattern(c.value) == x
  }

  /** Word number k, once cleaned, is x. */
  predicate CleansTo(words: seq<string>, k: nat, x: string) {
    k < |words| && CleanPattern(words[k]) == x
  }

  predicate ForbidsAt(words: seq<string>, i: nat, x: string) {
    && i < |words|
    && (|| ((words[i] == "no" || words[i] == "not" || words[i] == "never" || words[i] == "without")
            && CleansTo(words, i + 1, x))
        || (words[i] == "instead" && i + 2 < |words| && words[i + 1] == "of" && CleansTo(words, i + 2, x)))
  }

  predicate RequiresAt(words: seq<string>, i: nat, x: string) {
    && i < |words|
    && (|| (words[i] == "use" && i + 1 < |words|
            && CleansTo(words, if words[i + 1] == "only" && i + 2 < |words| then i + 2 else i + 1, x))
        || (i == 0 && words[0] == "only" && CleansTo(words, 1, x)))
  }

  /** What follows "no", "not", "never" and "without", and what follows "instead of". */
  lemma ForbiddenInWords(words: seq<string>, x: string)
    ensures Names(ForbiddenCandidates(words), x) <==> IsToolOrTechnique(x) && exists i: nat :: ForbidsAt(words, i, x)
  {
    var candidates, n := ForbiddenCandidates(words), |words|;
    if c :| c in candidates && c.Some? && CleanPattern(c.value) == x {
      var k :| 0 <= k < |candidates| && candidates[k] == c;
      assert c == if k < n then NegatedAt(words, k) else InsteadAt(words, k - n);
      assert ForbidsAt(words, if k < n then k else k - n, x);
    }
    if i: nat :| ForbidsAt(words, i, x) {
      assert candidates[i] == NegatedAt(words, i) && candidates[n + i] == InsteadAt(words, i);
      assert candidates[i] in candidates && candidates[n + i] in candidates;
    }
  }

  /** What follows "use" or "use only", and "only" at the start of the text. */
  lemma RequiredInWords(words: seq<string>, x: string)
    ensures Names(RequiredCandidates(words), x) <==> IsToolOrTechnique(x) && exists i: nat :: RequiresAt(words, i, x)
  {
    var candidates, n := RequiredCandidates(words), |words|;
    if c :| c in candidates && c.Some? && CleanPattern(c.value) == x {
      var k :| 0 <= k < |candidates| && candidates[k] == c;
      assert k < n ==> c == RequiredAt(words, k);
      assert RequiresAt(words, if k < n then k else 0, x);
    }
    if i: nat :| RequiresAt(words, i, x) {
      assert candidates[i] == RequiredAt(words, i) && candidates[i] in candidates;
      if i == 0 && words[0] == "only" && CleansTo(words, 1, x) {
        assert candidates[n] == Some(words[1]) && candidates[n] in candidates;
      }
    }
  }

  /** The cleaned candidates the tool test admits, in order. */
  function Tools(candidates: seq<Option<string>>): seq<string> {
    if candidates == [] then [] else
      var c := candidates[|candidates| - 1];
      Tools(candidates[..|candidates| - 1]) +
      if c.Some? && IsToolOrTechnique(CleanPattern(c.value)) then [CleanPattern(c.value)] else []
  }

  /** Each value once, where it first stands. */
  function FirstOccurrences(s: seq<string>): seq<string> {
    if s == [] then [] else
      var kept, x := FirstOccurrences(s[..|s| - 1]), s[|s| - 1];
      if x in kept then kept else kept + [x]
  }

  function NotIn(b: seq<string>): string -> bool {
    (x: string) => x !in b
  }

  function AllAlternatives(required: seq<string>): seq<string> {
    if required == [] then []
    else AllAlternatives(required[..|required| - 1]) + Alternatives(required[|required| - 1])
  }

  lemma {:induction false} AlternativesIn(required: seq<string>, x: string)
    ensures x in AllAlternatives(required) <==> exists r :: r in required && x in Alternatives(r)
  {
    if required != [] {
      var before, last := required[..|required| - 1], required[|required| - 1];
      assert required == before + [last];
      AlternativesIn(before, x);
    }
  }

  method Dedupe(s: seq<string>) returns (out: seq<string>)
    ensures out == FirstOccurrences(s)
    ensures Distinct(out) && forall x :: x in out <==> x in s
  {
    var seen: set<string> := {};
    out := [];
    for i := 0 to |s|
      invariant out == FirstOccurrences(s[..i])
      invariant Distinct(out) && forall x :: x in out <==> x in s[..i]
      invariant forall x :: x in seen <==> x in out
    {
      assert s[..i + 1][..i] == s[..i];
      if s[i] !in seen {
        seen := seen + {s[i]};
        out := out + [s[i]];
      }
    }
    assert s[..|s|] == s;
  }

  method Subtract(a: seq<string>, b: seq<string>) returns (out: seq<string>)
    ensures out == Select(a, NotIn(b))
    ensures forall x :: x in out <==> x in a && x !in b
    ensures Distinct(a) ==> Distinct(out)
  {
    out := [];
    for i := 0 to |a|
      invariant out == Select(a[..i], NotIn(b))
    {
      assert a[..i + 1] == a[..i] + [a[i]];
      SelectSnoc(a[..i], a[i], NotIn(b));
      if a[i] !in b {
        out := out + [a[i]];
      }
    }
    assert a[..|a|] == a;
    forall x ensures x in out <==> x in a && x !in b {
      SelectIn(a, NotIn(b), x);
    }
    if Distinct(a) {
      SelectPairs(a, NotIn(b), (x: string, y: string) => x != y);
    }
  }

  lemma {:induction false} ToolsIn(candidates: seq<Option<string>>, x: string)
    ensures x in Tools(candidates) <==> Names(candidates, x)
  {
    if candidates != [] {
      var before, c := candidates[..|candidates| - 1], candidates[|candidates| - 1];
      ToolsIn(before, x);
      assert candidates == before + [c];
    }
  }

  method KeepTools(candidates: seq<Option<string>>) returns (out: seq<string>)
    ensures out == Tools(candidates)
    ensures forall x :: x in out <==> Names(candidates, x)
  {
    out := [];
    for i := 0 to |candidates|
      invariant out == Tools(candidates[..i])
    {
      var c := candidates[i];
      assert candidates[..i + 1][..i] == candidates[..i];
      if c.Some? && IsToolOrTechnique(CleanPattern(c.value)) {
        out := out + [CleanPattern(c.value)];
      }
    }
    assert candidates[..|candidates|] == candidates;
    forall x ensures x in out <==> Names(candidates, x) {
      ToolsIn(candidates, x);
    }
  }

  method InferForbidden(required: seq<string>) returns (out: seq<string>)
    ensures out == AllAlternatives(required)
  {
    out := [];
    for i := 0 to |required|
      invariant out == AllAlternatives(required[..i])
    {
      assert required[..i + 1][..i] == required[..i];
      out := out + Alternatives(required[i]);
    }
    assert required[..|required|] == required;
  }

  /** The two lists a rule's text yields, in the order the text names them: each
      without duplicates, disjoint, and of words the tool test admits - never an
      empty one. A word is required when the text names it so, and forbidden when
      the text names it so or it is a known alternative of a required one, unless
      it is itself required. */
  method ExtractPatterns(rule: string) returns (required: seq<string>, forbidden: seq<string>)
    ensures Distinct(required) && Distinct(forbidden) && forall x :: !(x in required && x in forbidden)
    ensures forall x :: x in required || x in forbidden ==> IsToolOrTechnique(x) && x != ""
    ensures var words := Fields(Lower(rule));
            && (forall x :: x in required <==> Names(RequiredCandidates(words), x))
            && (forall x :: x in forbidden <==>
                  && x !in required
                  && (Names(ForbiddenCandidates(words), x) || exists r :: r in required && x in Alternatives(r)))
    ensures var words := Fields(Lower(rule));
            var named := Tools(RequiredCandidates(words));
            && required == FirstOccurrences(named)
            && forbidden == Select(FirstOccurrences(Tools(ForbiddenCandidates(words)) + AllAlternatives(named)),
                                   NotIn(required))
  {
    var words := Fields(Lower(rule));
    var forb := KeepTools(ForbiddenCandidates(words));
    var req := KeepTools(RequiredCandidates(words));
    var inferred := InferForbidden(req);
    forall x
      ensures x in inferred <==> exists r :: r in req && x in Alternatives(r)
      ensures x in inferred ==> IsToolOrTechnique(x)
    {
      AlternativesIn(req, x);
      if r :| r in req && x in Alternatives(r) {
        AlternativesAreTools(r);
      }
    }
    required := Dedupe(req);
    var all := Dedupe(forb + inferred);
    forbidden := Subtract(all, required);
  }
}
