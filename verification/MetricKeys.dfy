/** Keys of metrics that are discovered at run time. */
module MetricKeys {
  import opened Wrappers
  import opened Oid
  import opened SnmpWalk

  datatype ValueType = INTEGER | COUNTER | GAUGE | STRING

  datatype Reading = Reading(key: string, name: string, valueType: ValueType, rawValue: string, unit: Option<string>)

  // ---- Slugs --------------------------------------------------------------------------------

  predicate IsAlnum(c: char) {
    'a' <= c <= 'z' || '0' <= c <= '9'
  }

  predicate AllAlnum(s: string) {
    forall i :: 0 <= i < |s| ==> IsAlnum(s[i])
  }

  /** Drops the leading run of other characters. */
  function SkipOthers(s: string): (r: string)
    ensures |r| <= |s| && (s != "" && !IsAlnum(s[0]) ==> |r| < |s|)
    ensures r != "" ==> IsAlnum(r[0])
  {
    if s == "" || IsAlnum(s[0]) then s else SkipOthers(s[1..])
  }

  /** re.sub(r"[^a-z0-9]+", "_", s). */
  function SubOthers(s: string): string
    decreases |s|
  {
    if s == "" then ""
    else if IsAlnum(s[0]) then [s[0]] + SubOthers(s[1..])
    else "_" + SubOthers(SkipOthers(s))
  }

  function StripLeft(s: string): string {
    if s != "" && s[0] == '_' then StripLeft(s[1..]) else s
  }

  function StripRight(s: string): string {
    if s != "" && s[|s| - 1] == '_' then StripRight(s[..|s| - 1]) else s
  }

  /** `fold` stands for text.strip().lower(). */
  function Slugify(fold: string -> string, text: string): string {
    var slug := StripRight(StripLeft(SubOthers(fold(text))));
    if slug == "" then "value" else slug
  }

  /** The length of the leading run of letters and digits. */
  function WordLength(s: string): (n: nat)
    ensures n <= |s|
    ensures s != "" && IsAlnum(s[0]) ==> n > 0
  {
    if s == "" || !IsAlnum(s[0]) then 0 else 1 + WordLength(s[1..])
  }

  lemma {:induction false} WordLengthFacts(s: string)
    ensures var n := WordLength(s); AllAlnum(s[..n]) && (n < |s| ==> !IsAlnum(s[n]))
  {
    if s != "" && IsAlnum(s[0]) {
      WordLengthFacts(s[1..]);
      var n := WordLength(s);
      assert s[..n] == [s[0]] + s[1..][..n - 1];
    }
  }

  /** The maximal runs of letters and digits. */
  function Words(s: string): seq<string>
    decreases |s|
  {
    if s == "" then []
    else if IsAlnum(s[0]) then [s[..WordLength(s)]] + Words(s[WordLength(s)..])
    else Words(s[1..])
  }

  function Join(words: seq<string>): string {
    if words == [] then ""
    else if |words| == 1 then words[0]
    else words[0] + "_" + Join(words[1..])
  }

  predicate AreWords(words: seq<string>) {
    forall i :: 0 <= i < |words| ==> words[i] != "" && AllAlnum(words[i])
  }

  lemma {:induction false} WordsAreWords(s: string)
    ensures AreWords(Words(s))
    decreases |s|
  {
    if s == "" {
    } else {
      WordLengthFacts(s);
      WordsAreWords(if IsAlnum(s[0]) then s[WordLength(s)..] else s[1..]);
    }
  }

  lemma {:induction false} WordsSkipOthers(s: string)
    ensures Words(SkipOthers(s)) == Words(s)
  {
    if s != "" && !IsAlnum(s[0]) {
      WordsSkipOthers(s[1..]);
    }
  }

  lemma {:induction false} SubKeepsWord(s: string, n: nat)
    requires n <= |s| && AllAlnum(s[..n])
    ensures SubOthers(s) == s[..n] + SubOthers(s[n..])
  {
    if n == 0 {
      assert s[0..] == s;
    } else {
      var word, rest := s[..n], s[1..][..n - 1];
      assert word == [s[0]] + rest && word[0] == s[0];
      assert forall i :: 0 <= i < n - 1 ==> rest[i] == word[1..][i];
      SubKeepsWord(s[1..], n - 1);
      assert s[1..][n - 1..] == s[n..] && s[..n] == [s[0]] + s[1..][..n - 1];
    }
  }

  /** An underscore where the text starts or ends outside a word. */
  function Lead(s: string): string {
    if s != "" && !IsAlnum(s[0]) then "_" else ""
  }

  function Trail(s: string): string {
    if Words(s) != [] && !IsAlnum(s[|s| - 1]) then "_" else ""
  }

  /** The substitution yields the words of the text joined by underscores, with one more at each end
      where the text does not start or end with a word. */
  lemma {:induction false} SubJoinsWords(s: string)
    ensures SubOthers(s) == Lead(s) + Join(Words(s)) + Trail(s)
    decreases |s|
  {
    if s == "" {
    } else if IsAlnum(s[0]) {
      SubAfterWord(s, WordLength(s));
    } else {
      var rest := SkipOthers(s);
      SubJoinsWords(rest);
      WordsSkipOthers(s);
      SkipKeepsEnd(s);
    }
  }

  lemma {:induction false} SkipKeepsEnd(s: string)
    ensures SkipOthers(s) != "" ==> s != "" && SkipOthers(s)[|SkipOthers(s)| - 1] == s[|s| - 1]
    ensures SkipOthers(s) == "" ==> Words(s) == []
  {
    if s != "" && !IsAlnum(s[0]) {
      SkipKeepsEnd(s[1..]);
    }
  }

  lemma {:induction false} NoWords(s: string)
    ensures Words(s) == [] ==> (s == "" || !IsAlnum(s[|s| - 1]))
  {
    if s != "" && !IsAlnum(s[0]) {
      NoWords(s[1..]);
    }
  }

  lemma {:induction false} SubAfterWord(s: string, n: nat)
    requires s != "" && IsAlnum(s[0]) && n == WordLength(s)
    ensures SubOthers(s) == Lead(s) + Join(Words(s)) + Trail(s)
    decreases |s|, 0
  {
    var rest := s[n..];
    WordLengthFacts(s);
    SubKeepsWord(s, n);
    SubJoinsWords(rest);
    if rest == "" {
      OnlyWord(s, n);
    } else if Words(rest) == [] {
      NoWords(rest);
      LastWord(s, n, rest);
    } else {
      WordBefore(s, n, rest);
    }
  }

  lemma OnlyWord(s: string, n: nat)
    requires s != "" && IsAlnum(s[0]) && n == WordLength(s) == |s| && AllAlnum(s[..n])
    ensures Words(s) == [s] && s[..n] == s && Trail(s) == ""
  {
    assert s[..n] == s && s[n..] == "" && s[..n][|s| - 1] == s[|s| - 1];
  }

  lemma LastWord(s: string, n: nat, rest: string)
    requires s != "" && IsAlnum(s[0]) && n == WordLength(s) < |s| && rest == s[n..] && !IsAlnum(s[n])
    requires Words(rest) == [] && !IsAlnum(rest[|rest| - 1])
    ensures Lead(rest) + Join(Words(rest)) + Trail(rest) == "_"
    ensures Lead(s) + Join(Words(s)) + Trail(s) == s[..n] + "_"
  {
    assert rest[|rest| - 1] == s[|s| - 1] && rest[0] == s[n];
    assert Words(s) == [s[..n]];
  }

  lemma WordBefore(s: string, n: nat, rest: string)
    requires s != "" && IsAlnum(s[0]) && n == WordLength(s) < |s| && rest == s[n..] && !IsAlnum(s[n])
    requires Words(rest) != []
    ensures Lead(s) + Join(Words(s)) + Trail(s) == s[..n] + (Lead(rest) + Join(Words(rest)) + Trail(rest))
  {
    assert rest[|rest| - 1] == s[|s| - 1] && rest[0] == s[n];
    assert Words(s) == [s[..n]] + Words(rest) && Lead(s) == "" && Lead(rest) == "_" && Trail(s) == Trail(rest);
    WordThenRest(s[..n], Words(rest), Trail(rest));
  }

  lemma WordThenRest(word: string, words: seq<string>, trail: string)
    requires words != []
    ensures word + ("_" + Join(words) + trail) == "" + Join([word] + words) + trail
  {
    assert ([word] + words)[1..] == words;
  }

  /** What a slug looks like: letters, digits and single underscores between them. */
  predicate IsSlug(s: string) {
    && s != "" && IsAlnum(s[0]) && IsAlnum(s[|s| - 1])
    && (forall i :: 0 <= i < |s| ==> IsAlnum(s[i]) || s[i] == '_')
    && (forall i :: 0 <= i < |s| - 1 ==> IsAlnum(s[i]) || IsAlnum(s[i + 1]))
  }

  lemma {:induction false} JoinIsSlug(words: seq<string>)
    requires words != [] && AreWords(words)
    ensures IsSlug(Join(words))
  {
    var word := words[0];
    if |words| > 1 {
      JoinIsSlug(words[1..]);
      var rest := Join(words[1..]);
      var s := word + "_" + rest;
      assert forall i :: 0 <= i < |s| ==>
               s[i] == if i < |word| then word[i] else if i == |word| then '_' else rest[i - |word| - 1];
    }
  }

  lemma StripLead(lead: string, t: string)
    requires t != "" && t[0] != '_' && (lead == "" || lead == "_")
    ensures StripLeft(lead + t) == t
  {
    if lead == "_" {
      assert ("_" + t)[1..] == t;
    } else {
      assert lead + t == t;
    }
  }

  lemma StripTrail(s: string, trail: string)
    requires s != "" && s[|s| - 1] != '_' && (trail == "" || trail == "_")
    ensures StripRight(s + trail) == s
  {
    if trail == "_" {
      assert (s + "_")[..|s|] == s;
    } else {
      assert s + trail == s;
    }
  }

  lemma StripOfSlug(s: string, lead: string, trail: string)
    requires IsSlug(s) && (lead == "" || lead == "_") && (trail == "" || trail == "_")
    ensures StripRight(StripLeft(lead + s + trail)) == s
  {
    assert lead + s + trail == lead + (s + trail);
    StripLead(lead, s + trail);
    StripTrail(s, trail);
  }

  /** The slug of any text is the words of the folded text joined by single underscores, or "value" when
      it has none. */
  lemma SlugJoinsWords(fold: string -> string, text: string)
    ensures var words := Words(fold(text));
            Slugify(fold, text) == if words == [] then "value" else Join(words)
  {
    var s := fold(text);
    SubJoinsWords(s);
    if Words(s) == [] {
      assert SubOthers(s) == Lead(s);
      assert StripRight(StripLeft(SubOthers(s))) == "" by {
        if s != "" && !IsAlnum(s[0]) {
          assert SubOthers(s) == "_" && "_"[1..] == "";
        }
      }
    } else {
      WordsAreWords(s);
      JoinIsSlug(Words(s));
      StripOfSlug(Join(Words(s)), Lead(s), Trail(s));
    }
  }

  /** Every slug has the normal form, so it is never empty. */
  lemma SlugIsNormal(fold: string -> string, text: string)
    ensures IsSlug(Slugify(fold, text))
  {
    SlugJoinsWords(fold, text);
    WordsAreWords(fold(text));
    if Words(fold(text)) != [] {
      JoinIsSlug(Words(fold(text)));
    }
  }

  // ---- Slugs, character by character --------------------------------------------------------

  /** The letters and digits of a text, in order. */
  function LettersAndDigits(s: string): string {
    if s == "" then ""
    else (if 'a' <= s[0] <= 'z' || '0' <= s[0] <= '9' then [s[0]] else "") + LettersAndDigits(s[1..])
  }

  lemma {:induction false} LettersAppend(a: string, b: string)
    ensures LettersAndDigits(a + b) == LettersAndDigits(a) + LettersAndDigits(b)
  {
    if a == "" {
      assert a + b == b;
    } else {
      var s, head := a + b, if IsAlnum(a[0]) then [a[0]] else "";
      LettersAppend(a[1..], b);
      assert s[0] == a[0] && s[1..] == a[1..] + b;
      assert LettersAndDigits(s) == head + (LettersAndDigits(a[1..]) + LettersAndDigits(b));
    }
  }

  lemma {:induction false} SkippedHasNone(s: string)
    ensures LettersAndDigits(SkipOthers(s)) == LettersAndDigits(s)
  {
    if s != "" && !IsAlnum(s[0]) {
      SkippedHasNone(s[1..]);
    }
  }

  lemma {:induction false} SubKeepsLetters(s: string)
    ensures LettersAndDigits(SubOthers(s)) == LettersAndDigits(s)
    decreases |s|
  {
    if s == "" {
    } else if IsAlnum(s[0]) {
      SubKeepsLetters(s[1..]);
      assert ([s[0]] + SubOthers(s[1..]))[1..] == SubOthers(s[1..]);
    } else {
      SubKeepsLetters(SkipOthers(s));
      SkippedHasNone(s);
      assert ("_" + SubOthers(SkipOthers(s)))[1..] == SubOthers(SkipOthers(s));
    }
  }

  lemma {:induction false} StripKeepsLetters(s: string)
    ensures LettersAndDigits(StripLeft(s)) == LettersAndDigits(s)
    ensures LettersAndDigits(StripRight(s)) == LettersAndDigits(s)
  {
    if s != "" && s[0] == '_' {
      StripKeepsLetters(s[1..]);
    }
    if s != "" && s[|s| - 1] == '_' {
      var n := |s| - 1;
      StripKeepsLetters(s[..n]);
      LettersAppend(s[..n], "_");
      assert s == s[..n] + "_" && "_"[1..] == "";
    }
  }

  /** A slug consists of lower-case letters, digits and underscores, and its letters and digits are those of the
      folded text, all of them, in order; or it is "value" when there are none. */
  lemma SlugKeepsLetters(fold: string -> string, text: string)
    ensures var slug, letters := Slugify(fold, text), LettersAndDigits(fold(text));
            && (forall i :: 0 <= i < |slug| ==>
                  'a' <= slug[i] <= 'z' || '0' <= slug[i] <= '9' || slug[i] == '_')
            && (letters != "" ==> LettersAndDigits(slug) == letters)
            && (letters == "" ==> slug == "value")
  {
    var s := fold(text);
    SlugIsNormal(fold, text);
    SubKeepsLetters(s);
    StripKeepsLetters(SubOthers(s));
    StripKeepsLetters(StripLeft(SubOthers(s)));
    SlugJoinsWords(fold, text);
    NoLettersNoWords(s);
  }

  lemma {:induction false} NoLettersNoWords(s: string)
    ensures Words(s) == [] <==> LettersAndDigits(s) == ""
  {
    if s != "" && !IsAlnum(s[0]) {
      NoLettersNoWords(s[1..]);
    }
  }

  /** The words are the maximal runs: word `j` stands from `starts[j]` up to `ends[j]`, a run never touches the
      next one, and exactly the characters in a run are letters and digits. */
  ghost predicate AreRuns(s: string, words: seq<string>, starts: seq<nat>, ends: seq<nat>) {
    && RunsStand(s, words, starts, ends)
    && (forall i :: 0 <= i < |s| ==> ('a' <= s[i] <= 'z' || '0' <= s[i] <= '9' <==> InRun(starts, ends, i)))
  }

  predicate RunsStand(s: string, words: seq<string>, starts: seq<nat>, ends: seq<nat>) {
    && |starts| == |ends| == |words|
    && (forall j :: 0 <= j < |words| ==> starts[j] < ends[j] <= |s| && words[j] == s[starts[j]..ends[j]])
    && (forall i, j :: 0 <= i < j < |words| ==> ends[i] < starts[j])
  }

  ghost predicate InRun(starts: seq<nat>, ends: seq<nat>, i: nat)
    requires |starts| == |ends|
  {
    exists j :: 0 <= j < |starts| && starts[j] <= i < ends[j]
  }

  lemma {:induction false} WordsAreRuns(s: string) returns (starts: seq<nat>, ends: seq<nat>)
    ensures AreRuns(s, Words(s), starts, ends)
    decreases |s|
  {
    if s == "" {
      starts, ends := [], [];
    } else if IsAlnum(s[0]) {
      var n := WordLength(s);
      WordLengthFacts(s);
      var a, b := WordsAreRuns(s[n..]);
      starts, ends := [0] + Shifted(a, n), [n] + Shifted(b, n);
      RunsBehindWord(s, n, Words(s[n..]), a, b);
    } else {
      var a, b := WordsAreRuns(s[1..]);
      starts, ends := Shifted(a, 1), Shifted(b, 1);
      RunsBehindOther(s, Words(s[1..]), a, b);
    }
  }

  function Shifted(idx: seq<nat>, n: nat): (shifted: seq<nat>)
    ensures |shifted| == |idx| && forall j :: 0 <= j < |idx| ==> shifted[j] == idx[j] + n
  {
    seq(|idx|, j requires 0 <= j < |idx| => idx[j] + n)
  }

  lemma RunsBehindOther(s: string, words: seq<string>, a: seq<nat>, b: seq<nat>)
    requires s != "" && !IsAlnum(s[0]) && AreRuns(s[1..], words, a, b)
    ensures AreRuns(s, words, Shifted(a, 1), Shifted(b, 1))
  {
    forall i | 0 <= i < |s|
      ensures IsAlnum(s[i]) <==> InRun(Shifted(a, 1), Shifted(b, 1), i)
    {
      InShiftedRun(a, b, 1, i);
      assert i > 0 ==> s[i] == s[1..][i - 1];
    }
  }

  lemma InShiftedRun(a: seq<nat>, b: seq<nat>, n: nat, i: nat)
    requires |a| == |b|
    ensures InRun(Shifted(a, n), Shifted(b, n), i) <==> i >= n && InRun(a, b, i - n)
  {
    if i >= n && InRun(a, b, i - n) {
      var j :| 0 <= j < |a| && a[j] <= i - n < b[j];
      assert Shifted(a, n)[j] <= i < Shifted(b, n)[j];
    }
  }

  lemma InFirstOrLaterRun(a: seq<nat>, b: seq<nat>, n: nat, i: nat)
    requires |a| == |b|
    ensures InRun([0] + a, [n] + b, i) <==> i < n || InRun(a, b, i)
  {
    var starts, ends := [0] + a, [n] + b;
    if i < n {
      assert starts[0] <= i < ends[0];
    } else if InRun(a, b, i) {
      var j :| 0 <= j < |a| && a[j] <= i < b[j];
      assert starts[j + 1] <= i < ends[j + 1];
    }
  }

  lemma RunsBehindWord(s: string, n: nat, words: seq<string>, a: seq<nat>, b: seq<nat>)
    requires 0 < n <= |s| && AllAlnum(s[..n]) && (n < |s| ==> !IsAlnum(s[n])) && AreRuns(s[n..], words, a, b)
    ensures AreRuns(s, [s[..n]] + words, [0] + Shifted(a, n), [n] + Shifted(b, n))
  {
    LaterRunsStand(s, n, words, a, b);
    forall i | 0 <= i < |s|
      ensures IsAlnum(s[i]) <==> InRun([0] + Shifted(a, n), [n] + Shifted(b, n), i)
    {
      InFirstOrLaterRun(Shifted(a, n), Shifted(b, n), n, i);
      InShiftedRun(a, b, n, i);
      if i < n {
        assert s[i] == s[..n][i];
      } else {
        assert s[i] == s[n..][i - n];
      }
    }
  }

  lemma LaterRunsStand(s: string, n: nat, words: seq<string>, a: seq<nat>, b: seq<nat>)
    requires 0 < n <= |s| && (n < |s| ==> !IsAlnum(s[n])) && AreRuns(s[n..], words, a, b)
    ensures RunsStand(s, [s[..n]] + words, [0] + Shifted(a, n), [n] + Shifted(b, n))
  {
    LaterRunsMoved(s, n, words, a, b);
    FirstRunStands(s, n, words, Shifted(a, n), Shifted(b, n));
  }

  lemma FirstRunStands(s: string, n: nat, words: seq<string>, starts: seq<nat>, ends: seq<nat>)
    requires 0 < n <= |s| && RunsStand(s, words, starts, ends)
    requires forall j :: 0 <= j < |words| ==> n < starts[j]
    ensures RunsStand(s, [s[..n]] + words, [0] + starts, [n] + ends)
  {
  }

  lemma SliceOfTail(s: string, n: nat, a: nat, b: nat)
    requires n <= |s| && a <= b <= |s| - n
    ensures s[n..][a..b] == s[a + n..b + n]
  {
  }

  lemma LaterRunsMoved(s: string, n: nat, words: seq<string>, a: seq<nat>, b: seq<nat>)
    requires 0 < n <= |s| && (n < |s| ==> !IsAlnum(s[n])) && AreRuns(s[n..], words, a, b)
    ensures RunsStand(s, words, Shifted(a, n), Shifted(b, n))
    ensures forall j :: 0 <= j < |words| ==> n < Shifted(a, n)[j]
  {
    forall j | 0 <= j < |words|
      ensures 0 < a[j] && words[j] == s[a[j] + n..b[j] + n]
    {
      assert words[j] == s[n..][a[j]..b[j]];
      SliceOfTail(s, n, a[j], b[j]);
      assert InRun(a, b, a[j]) && s[n..][a[j]] == s[n + a[j]];
    }
  }

  /** Folding leaves slugs alone: stripping and lower-casing do nothing to [a-z0-9_] text without
      surrounding white space. */
  ghost predicate FoldsSlugs(fold: string -> string) {
    forall s :: IsSlug(s) ==> fold(s) == s
  }

  lemma {:induction false} SubOfSlug(s: string)
    requires forall i :: 0 <= i < |s| ==> IsAlnum(s[i]) || s[i] == '_'
    requires forall i :: 0 <= i < |s| - 1 ==> IsAlnum(s[i]) || IsAlnum(s[i + 1])
    ensures SubOthers(s) == s
  {
    if s == "" {
    } else {
      assert forall i :: 0 <= i < |s| - 1 ==> s[1..][i] == s[i + 1];
      SubOfSlug(s[1..]);
      assert s == [s[0]] + s[1..];
      if !IsAlnum(s[0]) {
        assert SkipOthers(s) == s[1..];
      }
    }
  }

  /** The fixed points of slugify are exactly the texts in normal form; so it is idempotent. */
  lemma SlugFixedPoints(fold: string -> string, text: string)
    requires FoldsSlugs(fold)
    ensures Slugify(fold, text) == text <==> IsSlug(text)
    ensures Slugify(fold, Slugify(fold, text)) == Slugify(fold, text)
  {
    SlugIsNormal(fold, text);
    SlugStays(fold, Slugify(fold, text));
    if IsSlug(text) {
      SlugStays(fold, text);
    }
  }

  lemma SlugStays(fold: string -> string, s: string)
    requires FoldsSlugs(fold) && IsSlug(s)
    ensures Slugify(fold, s) == s
  {
    SubOfSlug(s);
    StripOfSlug(s, "", "");
    assert "" + s + "" == s;
  }

  // ---- Keys of table entries ----------------------------------------------------------------

  /** index.replace('.', '_'). */
  function DotsToUnderscores(s: string): (r: string)
    ensures |r| == |s|
    ensures forall i :: 0 <= i < |s| ==> r[i] == if s[i] == '.' then '_' else s[i]
  {
    seq(|s|, i requires 0 <= i < |s| => if s[i] == '.' then '_' else s[i])
  }

  /** A single entry keeps the base key; several are told apart by their index. */
  function KeyedReadings(values: seq<Item>, baseKey: string, baseName: string, valueType: ValueType,
                         unit: Option<string>): seq<Reading> {
    if |values| == 1 then [Reading(baseKey, baseName, valueType, values[0].value, unit)]
    else
      seq(|values|, i requires 0 <= i < |values| =>
        Reading(baseKey + "_" + DotsToUnderscores(values[i].key), baseName + " (" + values[i].key + ")",
                valueType, values[i].value, unit))
  }

  predicate IsIndex(s: string) {
    forall i :: 0 <= i < |s| ==> IsDigit(s[i]) || s[i] == '.'
  }

  lemma DotsToUnderscoresInjective(a: string, b: string)
    requires IsIndex(a) && IsIndex(b) && DotsToUnderscores(a) == DotsToUnderscores(b)
    ensures a == b
  {
    assert forall i :: 0 <= i < |a| ==> DotsToUnderscores(a)[i] == DotsToUnderscores(b)[i] && a[i] == b[i];
  }

  /** One reading per entry, in order, with the values of the entries and pairwise different keys; a
      single entry keeps the base key and name. */
  lemma KeysAreDistinct(values: seq<Item>, baseKey: string, baseName: string, valueType: ValueType,
                        unit: Option<string>)
    requires DistinctKeys(values) && forall i :: 0 <= i < |values| ==> IsIndex(values[i].key)
    ensures var readings := KeyedReadings(values, baseKey, baseName, valueType, unit);
            && |readings| == |values|
            && (forall i :: 0 <= i < |values| ==>
                  readings[i].rawValue == values[i].value && readings[i].valueType == valueType &&
                  readings[i].unit == unit)
            && (forall i, j :: 0 <= i < j < |readings| ==> readings[i].key != readings[j].key)
            && (|values| == 1 ==> readings[0].key == baseKey && readings[0].name == baseName)
  {
    var readings := KeyedReadings(values, baseKey, baseName, valueType, unit);
    forall i, j | 0 <= i < j < |readings|
      ensures readings[i].key != readings[j].key
    {
      if readings[i].key == readings[j].key {
        CommonPrefix(baseKey + "_", DotsToUnderscores(values[i].key), DotsToUnderscores(values[j].key));
        DotsToUnderscoresInjective(values[i].key, values[j].key);
        assert false;
      }
    }
  }

  /** The keys and names, character by character: a single entry keeps both; with several, the key is the base
      key, an underscore, and the index with underscores for dots, and the name ends with the index in
      parentheses. */
  lemma ReadingsOverEntries(values: seq<Item>, baseKey: string, baseName: string, valueType: ValueType,
                            unit: Option<string>, i: nat)
    requires i < |values|
    ensures var readings := KeyedReadings(values, baseKey, baseName, valueType, unit);
            && |readings| == |values|
            && (|values| == 1 ==> readings[i] == Reading(baseKey, baseName, valueType, values[i].value, unit))
            && (|values| > 1 ==>
                  var key, index := readings[i].key, values[i].key;
                  && readings[i].name == baseName + " (" + index + ")"
                  && |key| == |baseKey| + 1 + |index| && key[..|baseKey|] == baseKey && key[|baseKey|] == '_'
                  && forall c :: 0 <= c < |index| ==>
                       key[|baseKey| + 1 + c] == if index[c] == '.' then '_' else index[c])
  {
  }

  lemma CommonPrefix(p: string, a: string, b: string)
    requires p + a == p + b
    ensures a == b
  {
    assert a == (p + a)[|p|..] && b == (p + b)[|p|..];
  }

  lemma {:induction false} RenderIsIndex(oid: Oid)
    ensures IsIndex(Render(oid))
  {
    if oid == [] {
    } else {
      DecimalIsDigits(oid[0]);
      RenderIsIndex(oid[1..]);
    }
  }

  /** However a walk ends, its keys are index texts of the column, in order. */
  lemma KeysOfWalk(agent: Agent, column: Oid)
    requires Ordered(agent.mib)
    ensures var values, items := WalkResult(agent, column), ColumnItems(column, agent.mib);
            |values| <= |items| &&
            forall i :: 0 <= i < |values| ==> values[i].key == items[i].key && IsIndex(values[i].key)
    ensures DistinctKeys(WalkResult(agent, column))
  {
    var items := ColumnItems(column, agent.mib);
    ItemsHaveDistinctKeys(column, agent.mib);
    ItemsMembers(column, agent.mib);
    forall i | 0 <= i < |items|
      ensures IsIndex(items[i].key)
    {
      assert items[i] in items;
      var e :| e in agent.mib && Under(column, e.oid) && items[i] == ItemOf(column, e);
      RenderIsIndex(e.oid[|column|..]);
    }
  }

  /** No two readings made from one walk share a key, however the walk ends. */
  lemma ReadingsOfWalkAreDistinct(agent: Agent, column: Oid, baseKey: string, baseName: string, valueType: ValueType,
                                  unit: Option<string>)
    requires Ordered(agent.mib)
    ensures var values := WalkResult(agent, column);
            var readings := KeyedReadings(values, baseKey, baseName, valueType, unit);
            && |readings| == |values|
            && (forall i :: 0 <= i < |values| ==> readings[i].rawValue == values[i].value)
            && (forall i, j :: 0 <= i < j < |readings| ==> readings[i].key != readings[j].key)
  {
    KeysOfWalk(agent, column);
    KeysAreDistinct(WalkResult(agent, column), baseKey, baseName, valueType, unit);
  }
}
