/** Essay grading in app.py: reading the twelve rubric scores out of a
    review (extract_scores) and the single improvement pass
    (improve_until_pass). The chat-API calls `review_essay` and
    `optimize_essay` are the collaborators `review` and `optimize`. */
module Essay {
  import opened Common

  /** The twelve rubric items, in the order they are searched. */
  const Labels: seq<string> := [
    "切题程度", "思想深度", "论据质量",
    "整体布局", "段落安排", "开头结尾",
    "语言规范", "表达流畅", "风格得体",
    "字迹工整", "卷面整洁", "字数符合"
  ]

  type Scores = map<string, nat>

  // ---------------------------------------------------------------------------
  // The pattern rf"{item}（\d+分）[:：]?\s*(?:得)?(\d+)"

  /** The longest prefix of `s` made of whitespace (`\s*`). */
  function Spaces(s: string): (r: string)
    ensures r <= s
    ensures forall j :: 0 <= j < |r| ==> IsSpace(r[j])
    ensures |r| < |s| ==> !IsSpace(s[|r|])
  {
    if s == [] || !IsSpace(s[0]) then [] else [s[0]] + Spaces(s[1..])
  }

  /** The part `{item}（\d+分）` matched at `i`: the index just after it, or `None`. */
  function HeadEnd(t: string, item: string, i: nat): (r: Option<nat>)
    ensures r.Some? ==> OccursAt(t, item + "（", i) && r.value <= |t|
  {
    if !OccursAt(t, item + "（", i) then None
    else
      var j := i + |item| + 1;
      var maxDigits := DigitRun(t[j..]);
      var k := j + |maxDigits|;
      if maxDigits == [] || !OccursAt(t, "分）", k) then None else Some(k + 2)
  }

  /** `[:：]?` at `k`: the index after it. */
  function AfterColon(t: string, k: nat): (r: nat)
    requires k <= |t|
    ensures k <= r <= |t|
  {
    if k < |t| && (t[k] == ':' || t[k] == '：') then k + 1 else k
  }

  /** `\s*` at `k`: the index after it. */
  function AfterSpaces(t: string, k: nat): (r: nat)
    requires k <= |t|
    ensures k <= r <= |t|
  {
    k + |Spaces(t[k..])|
  }

  /** `(?:得)?` at `k`: the index after it. */
  function AfterDe(t: string, k: nat): (r: nat)
    requires k <= |t|
    ensures k <= r <= |t|
  {
    if k < |t| && t[k] == '得' then k + 1 else k
  }

  /** The part `[:：]?\s*(?:得)?(\d+)` matched at `k`: the captured number,
      or `None`. Each optional part is taken greedily; giving one back never
      lets a later part match, so this is the only way it can match. */
  function TailScore(t: string, k: nat): (r: Option<nat>)
    requires k <= |t|
  {
    var k5 := AfterDe(t, AfterSpaces(t, AfterColon(t, k)));
    var score := DigitRun(t[k5..]);
    if score == [] then None else Some(DigitsValue(score))
  }

  /** The score the pattern captures when a match starts at `i`, or `None`. */
  function MatchAt(t: string, item: string, i: nat): (r: Option<nat>)
    ensures r.Some? ==> OccursAt(t, item + "（", i)
  {
    match HeadEnd(t, item, i)
    case None => None
    case Some(k) => TailScore(t, k)
  }

  /** `re.search`: the match that starts leftmost at or after `from`. */
  function ScoreFrom(t: string, item: string, from: nat): (r: Option<nat>)
    decreases |t| - from
    ensures r.Some? ==> exists i :: from <= i && MatchAt(t, item, i) == r
    ensures r.None? ==> forall i :: from <= i ==> MatchAt(t, item, i).None?
    ensures r.Some? ==> exists i :: from <= i && MatchAt(t, item, i) == r && forall j :: from <= j < i ==> MatchAt(t, item, j).None?
  {
    if from > |t| then None
    else if MatchAt(t, item, from).Some? then MatchAt(t, item, from)
    else ScoreFrom(t, item, from + 1)
  }

  function FirstScore(t: string, item: string): Option<nat> {
    ScoreFrom(t, item, 0)
  }

  /** The map `extract_scores` holds after searching for the items of `items`. */
  function ScoresIn(t: string, items: seq<string>): (r: Scores)
    ensures forall l :: l in r <==> l in items && FirstScore(t, l).Some?
    ensures forall l :: l in r ==> r[l] == FirstScore(t, l).value
  {
    if items == [] then map[]
    else
      var front := items[..|items| - 1];
      var l := items[|items| - 1];
      assert items == front + [l];
      var m := ScoresIn(t, front);
      match FirstScore(t, l)
      case Some(v) => m[l := v]
      case None => m
  }

  /** The value `extract_scores` returns: the scores of the items that match,
      or `None` (never an empty map) when none does. */
  function ExtractedScores(feedback: string): (r: Option<Scores>)
    ensures r.None? <==> forall k :: 0 <= k < |Labels| ==> FirstScore(feedback, Labels[k]).None?
    ensures r.Some? ==> r.value != map[] && forall l :: l in r.value ==> l in Labels
    ensures r.Some? ==> forall k :: 0 <= k < |Labels| && FirstScore(feedback, Labels[k]).Some? ==>
                          Labels[k] in r.value && r.value[Labels[k]] == FirstScore(feedback, Labels[k]).value
  {
    var m := ScoresIn(feedback, Labels);
    if m == map[] then None
    else
      ScoresPresent(feedback, m);
      Some(m)
  }

  /** A non-empty score map names a label that matched. */
  lemma ScoresPresent(feedback: string, m: Scores)
    requires m == ScoresIn(feedback, Labels) && m != map[]
    ensures exists k :: 0 <= k < |Labels| && FirstScore(feedback, Labels[k]).Some?
  {
    var l :| l in m;
    var k :| 0 <= k < |Labels| && Labels[k] == l;
  }

  lemma ScoresInStep(t: string, items: seq<string>, k: nat)
    requires k < |items|
    ensures ScoresIn(t, items[..k + 1]) == match FirstScore(t, items[k])
                                          case Some(v) => ScoresIn(t, items[..k])[items[k] := v]
                                          case None => ScoresIn(t, items[..k])
  {
    assert items[..k + 1][..k] == items[..k];
  }

  /** extract_scores fills the map one item at a time. */
  method ExtractScores(feedback: string) returns (r: Option<Scores>)
    ensures r == ExtractedScores(feedback)
  {
    var extracted: Scores := map[];
    for k := 0 to |Labels|
      invariant extracted == ScoresIn(feedback, Labels[..k])
    {
      var item := Labels[k];
      ScoresInStep(feedback, Labels, k);
      var m := FirstScore(feedback, item);
      if m.Some? {
        extracted := extracted[item := m.value];
      }
    }
    assert Labels[..|Labels|] == Labels;
    if extracted == map[] {
      return None;
    }
    return Some(extracted);
  }

  // ---------------------------------------------------------------------------
  // A score line as the reviewer writes it is read back.

  lemma {:induction false} DigitRunOfDigits(ds: string, rest: string)
    requires forall i :: 0 <= i < |ds| ==> IsDigit(ds[i])
    requires rest == [] || !IsDigit(rest[0])
    ensures DigitRun(ds + rest) == ds
  {
    if ds != [] {
      assert (ds + rest)[1..] == ds[1..] + rest;
      DigitRunOfDigits(ds[1..], rest);
    }
  }

  /** "item（max分）", the head of a score line. */
  function ScoreHead(item: string, max: nat): string {
    item + "（" + NatToString(max) + "分）"
  }

  /** The optional "：" and "得" between the head and the score. */
  function Separator(colon: bool, de: bool): string {
    (if colon then "：" else "") + (if de then "得" else "")
  }

  /** A score line as the reviewer writes it, e.g. "切题程度（20分）：得18". */
  function ScoreLine(item: string, max: nat, colon: bool, de: bool, score: nat): string {
    ScoreHead(item, max) + Separator(colon, de) + NatToString(score)
  }

  /** The head `label（max分）` is recognised wherever it is written. */
  lemma HeadOfScoreLine(t: string, i: nat, item: string, max: nat, tail: string)
    requires i <= |t| && t[i..] == ScoreHead(item, max) + tail
    ensures HeadEnd(t, item, i) == Some(i + |ScoreHead(item, max)|)
  {
    var m := NatToString(max);
    assert ScoreHead(item, max) + tail == (item + "（") + (m + ("分）" + tail));
    HeadOfParts(t, i, item, m, tail);
  }

  /** The head `item（m分）` with a digit string `m`, written at `i`. */
  lemma HeadOfParts(t: string, i: nat, item: string, m: string, tail: string)
    requires i <= |t| && t[i..] == (item + "（") + (m + ("分）" + tail))
    requires m != [] && forall k :: 0 <= k < |m| ==> IsDigit(m[k])
    ensures HeadEnd(t, item, i) == Some(i + |item| + 1 + |m| + 2)
  {
    var close := "分）" + tail;
    PrefixAt(t, i, item + "（", m + close);
    var j := i + |item| + 1;
    PrefixAt(t, j, m, close);
    PrefixAt(t, j + |m|, "分）", tail);
    DigitRunOfDigits(m, close);
    HeadEndAt(t, item, i, m);
  }

  /** Text written at `i` occurs there, and what follows it starts after it. */
  lemma PrefixAt(t: string, i: nat, a: string, rest: string)
    requires i <= |t| && t[i..] == a + rest
    ensures OccursAt(t, a, i) && t[i + |a|..] == rest
  {
    assert t[i..i + |a|] == t[i..][..|a|];
    assert t[i + |a|..] == t[i..][|a|..];
  }

  /** The head is recognised once its three parts are in place. */
  lemma HeadEndAt(t: string, item: string, i: nat, m: string)
    requires OccursAt(t, item + "（", i)
    requires m != [] && DigitRun(t[i + |item| + 1..]) == m
    requires OccursAt(t, "分）", i + |item| + 1 + |m|)
    ensures HeadEnd(t, item, i) == Some(i + |item| + 1 + |m| + 2)
  {
  }

  lemma ColonStage(t: string, k: nat, colon: bool, w: string)
    requires k <= |t| && t[k..] == (if colon then "：" else "") + w
    requires w == [] || (w[0] != ':' && w[0] != '：')
    ensures AfterColon(t, k) <= |t| && t[AfterColon(t, k)..] == w
  {
    if colon {
      assert t[k] == '：';
      assert t[k + 1..] == t[k..][1..];
    } else if k < |t| {
      assert t[k] == w[0];
    }
  }

  /** Neither a digit nor 得 is whitespace. */
  lemma NotSpace(c: char)
    requires IsDigit(c) || c == '得'
    ensures !IsSpace(c)
  {
  }

  lemma SpacesStage(t: string, k: nat, w: string)
    requires k <= |t| && t[k..] == w
    requires w == [] || !IsSpace(w[0])
    ensures AfterSpaces(t, k) == k
  {
  }

  lemma DeStage(t: string, k: nat, de: bool, w: string)
    requires k <= |t| && t[k..] == (if de then "得" else "") + w
    requires w == [] || w[0] != '得'
    ensures AfterDe(t, k) <= |t| && t[AfterDe(t, k)..] == w
  {
    if de {
      assert t[k] == '得';
      assert t[k + 1..] == t[k..][1..];
    } else if k < |t| {
      assert t[k] == w[0];
    }
  }

  lemma DigitsStage(t: string, k: nat, score: nat, rest: string)
    requires rest == [] || !IsDigit(rest[0])
    requires k <= |t| && t[k..] == NatToString(score) + rest
    ensures DigitRun(t[k..]) != [] && DigitsValue(DigitRun(t[k..])) == score
  {
    DigitRunOfDigits(NatToString(score), rest);
    DigitsValueOfNat(score);
  }

  /** The optional parts take exactly the separator when a digit follows it. */
  lemma SeparatorStage(t: string, k: nat, colon: bool, de: bool, w: string)
    requires w != [] && IsDigit(w[0])
    requires k <= |t| && t[k..] == Separator(colon, de) + w
    ensures AfterDe(t, AfterSpaces(t, AfterColon(t, k))) <= |t|
    ensures t[AfterDe(t, AfterSpaces(t, AfterColon(t, k)))..] == w
  {
    var c := if colon then "：" else "";
    var d := if de then "得" else "";
    assert t[k..] == c + (d + w);
    ColonStage(t, k, colon, d + w);
    var k3 := AfterColon(t, k);
    if de {
      assert (d + w)[0] == '得';
      NotSpace('得');
    } else {
      assert (d + w)[0] == w[0];
      NotSpace(w[0]);
    }
    SpacesStage(t, k3, d + w);
    DeStage(t, k3, de, w);
  }

  /** The separator and the score, then a non-digit, give that score. */
  lemma TailOfScoreLine(t: string, k: nat, colon: bool, de: bool, score: nat, rest: string)
    requires rest == [] || !IsDigit(rest[0])
    requires k <= |t| && t[k..] == Separator(colon, de) + NatToString(score) + rest
    ensures TailScore(t, k) == Some(score)
  {
    var s := NatToString(score);
    assert t[k..] == Separator(colon, de) + (s + rest);
    SeparatorStage(t, k, colon, de, s + rest);
    DigitsStage(t, AfterDe(t, AfterSpaces(t, AfterColon(t, k))), score, rest);
  }

  /** `re.search` reports the leftmost position where the pattern matches;
      a position where `label（` does not even start cannot match. */
  lemma FirstMatchWins(t: string, item: string, a: nat, score: nat)
    requires MatchAt(t, item, a) == Some(score)
    requires forall j :: 0 <= j < a ==> !OccursAt(t, item + "（", j)
    ensures FirstScore(t, item) == Some(score)
  {
    var r := ScoreFrom(t, item, 0);
    var i :| 0 <= i && MatchAt(t, item, i) == r && forall j :: 0 <= j < i ==> MatchAt(t, item, j).None?;
  }

  /** A score line written at `k` matches there with its score. */
  lemma ScoreLineMatches(t: string, k: nat, item: string, max: nat, colon: bool, de: bool, score: nat, rest: string)
    requires rest == [] || !IsDigit(rest[0])
    requires k <= |t| && t[k..] == ScoreLine(item, max, colon, de, score) + rest
    ensures MatchAt(t, item, k) == Some(score)
  {
    var head := ScoreHead(item, max);
    var tail := Separator(colon, de) + NatToString(score) + rest;
    assert t[k..] == head + tail;
    HeadOfScoreLine(t, k, item, max, tail);
    var k2 := k + |head|;
    assert HeadEnd(t, item, k) == Some(k2);
    PrefixAt(t, k, head, tail);
    TailOfScoreLine(t, k2, colon, de, score, rest);
    assert TailScore(t, k2) == Some(score);
  }

  /** A score line gives its score, with or without the colon and the 得,
      whatever non-digit follows it, as long as no earlier position of the
      review starts `label（`. */
  lemma ScoreLineReadBack(pre: string, item: string, max: nat, colon: bool, de: bool, score: nat, rest: string)
    requires rest == [] || !IsDigit(rest[0])
    requires forall i :: 0 <= i < |pre| ==> !OccursAt(pre + ScoreLine(item, max, colon, de, score) + rest, item + "（", i)
    ensures FirstScore(pre + ScoreLine(item, max, colon, de, score) + rest, item) == Some(score)
  {
    var line := ScoreLine(item, max, colon, de, score);
    var t := pre + line + rest;
    assert t[|pre|..] == line + rest;
    ScoreLineMatches(t, |pre|, item, max, colon, de, score, rest);
    FirstMatchWins(t, item, |pre|, score);
  }

  // ---------------------------------------------------------------------------
  // improve_until_pass

  /** `sum(scores.values()) if scores else 0`. */
  function TotalScore(scores: Option<Scores>): nat {
    match scores
    case None => 0
    case Some(m) => SumOver(Labels, m)
  }

  /** The sum of the entries of `m` for the keys in `keys`; every key of a
      score map is a item and the labels are distinct, so over `Labels` this
      is the sum of all its values. */
  function SumOver(keys: seq<string>, m: Scores): nat {
    if keys == [] then 0 else (if keys[0] in m then m[keys[0]] else 0) + SumOver(keys[1..], m)
  }

  datatype Record = Record(round: nat, essay: string, feedback: string, scores: Option<Scores>, totalScore: nat)

  /** improve_until_pass: review once; if the total reaches the target, the
      input essay is the result, otherwise one optimized version re-reviewed,
      whatever its new total. `maxRounds` is accepted and unused. */
  function ImproveUntilPass(essay: string, targetScore: int, maxRounds: int,
                            review: string -> string, optimize: (string, string) -> string): (r: seq<Record>)
    ensures |r| == 1 && r[0].round == 1
    ensures r[0].totalScore == TotalScore(r[0].scores)
    ensures r[0].scores == ExtractedScores(r[0].feedback)
    ensures r[0].feedback == review(r[0].essay)
  {
    var feedback := review(essay);
    var scores := ExtractedScores(feedback);
    var total := TotalScore(scores);
    if total >= targetScore then
      [Record(1, essay, feedback, scores, total)]
    else
      var improved := optimize(essay, feedback);
      var feedback2 := review(improved);
      var scores2 := ExtractedScores(feedback2);
      [Record(1, improved, feedback2, scores2, TotalScore(scores2))]
  }

  /** The round limit has no effect: process_essay's `max_rounds=5` gives
      the same single record as the default of 1. */
  lemma RoundsIgnored(essay: string, targetScore: int, m1: int, m2: int,
                      review: string -> string, optimize: (string, string) -> string)
    ensures ImproveUntilPass(essay, targetScore, m1, review, optimize)
         == ImproveUntilPass(essay, targetScore, m2, review, optimize)
  {
  }

  /** When the first review reaches the target, the essay comes back as it
      was, with its first feedback, and `optimize` plays no part. */
  lemma PassingEssayUnchanged(essay: string, targetScore: int, maxRounds: int, review: string -> string,
                              optimize: (string, string) -> string, otherOptimize: (string, string) -> string)
    requires TotalScore(ExtractedScores(review(essay))) >= targetScore
    ensures ImproveUntilPass(essay, targetScore, maxRounds, review, optimize)[0].essay == essay
    ensures ImproveUntilPass(essay, targetScore, maxRounds, review, optimize)
         == ImproveUntilPass(essay, targetScore, maxRounds, review, otherOptimize)
  {
  }

  /** Otherwise the result is the optimized essay and its own review, even
      when that review scores lower than the first. */
  lemma FailingEssayOptimizedOnce(essay: string, targetScore: int, maxRounds: int, review: string -> string,
                                  optimize: (string, string) -> string)
    requires TotalScore(ExtractedScores(review(essay))) < targetScore
    ensures ImproveUntilPass(essay, targetScore, maxRounds, review, optimize)[0].essay == optimize(essay, review(essay))
  {
  }

  /** process_essay: nothing for blank input, else the last (only) record of
      improve_until_pass with target 90 and five rounds. */
  function ProcessEssay(text: string, review: string -> string, optimize: (string, string) -> string): (r: Option<Record>)
    ensures r.None? <==> Strip(text) == []
    ensures r.Some? ==> r.value == ImproveUntilPass(text, 90, 5, review, optimize)[0]
    ensures r.Some? && TotalScore(ExtractedScores(review(text))) >= 90 ==> r.value.essay == text
  {
    if Strip(text) == [] then None
    else
      var history := ImproveUntilPass(text, 90, 5, review, optimize);
      Some(history[|history| - 1])
  }
}
