/** The legacy raw-text detector (`RawEntDetector.py` at the repository
    root): finds the school as the best-scoring text line, or reads a name
    from the one PERSON span of the text, but never writes a name.
 */
module LegacyRawDetector {
  import opened Wrappers
  import opened Text
  import opened OrderedMap
  import opened Lexicon
  import opened Select
  import opened Names

  type TextForm = Dict<string, string>

  /** `__getSchool__`'s line score: +3 per School value alias and -10 per
      School value anti-alias found in the lower-cased line. */
  function LineScore(meta: Meta, line: string): (s: int)
    ensures s == 3 * Hits(meta.value.school.alias, Lower(line)) - 10 * Hits(meta.value.school.antialias, Lower(line))
  {
    var t := Lower(line);
    var s1 := Accumulate(meta.value.school.alias, t, 3, 0);
    AccumulateCountsHits(meta.value.school.alias, t, 3, 0);
    AccumulateCountsHits(meta.value.school.antialias, t, -10, s1);
    Accumulate(meta.value.school.antialias, t, -10, s1)
  }

  /** A line is kept when its score is strictly above 1, so a single
      anti-alias hit needs at least four alias hits to be outweighed. */
  lemma AntiAliasExcludes(meta: Meta, line: string)
    requires Hits(meta.value.school.antialias, Lower(line)) >= 1
    requires Hits(meta.value.school.alias, Lower(line)) <= 3
    ensures LineScore(meta, line) <= 1
  {
  }

  /** The `scores` dictionary of `__getSchool__`: every kept line with its
      score, in text order. The text is a dictionary, so its lines are
      distinct and each assignment adds a new entry. */
  function Kept(meta: Meta, lines: seq<string>): (r: seq<(string, int)>)
    ensures |r| <= |lines|
    ensures forall p :: 0 <= p < |r| ==> r[p].1 == LineScore(meta, r[p].0) && r[p].1 > 1
    decreases |lines|
  {
    if |lines| == 0 then []
    else
      var n := |lines| - 1;
      var s := LineScore(meta, lines[n]);
      Kept(meta, lines[..n]) + (if s > 1 then [(lines[n], s)] else [])
  }

  function Scores(kept: seq<(string, int)>): (xs: seq<real>)
    ensures |xs| == |kept|
    ensures forall p :: 0 <= p < |kept| ==> xs[p] == kept[p].1 as real
  {
    seq(|kept|, p requires 0 <= p < |kept| => kept[p].1 as real)
  }

  /** `r` names the earliest line of greatest score among the lines scoring
      above 1, or nothing when no line scores above 1. */
  predicate IsBest(meta: Meta, lines: seq<string>, r: Option<nat>) {
    && (r.None? <==> forall j :: 0 <= j < |lines| ==> LineScore(meta, lines[j]) <= 1)
    && (r.Some? ==> r.value < |lines| && LineScore(meta, lines[r.value]) > 1)
    && (r.Some? ==> forall j :: 0 <= j < |lines| ==> LineScore(meta, lines[j]) <= LineScore(meta, lines[r.value]))
    && (r.Some? ==> forall j :: 0 <= j < r.value ==> LineScore(meta, lines[j]) < LineScore(meta, lines[r.value]))
  }

  /** Reference definition of the chosen line, by a scan that replaces the
      best line only on a strictly greater score. */
  function BestLine(meta: Meta, lines: seq<string>): (r: Option<nat>)
    ensures r.Some? ==> r.value < |lines|
    decreases |lines|
  {
    if |lines| == 0 then None
    else
      var n := |lines| - 1;
      var s := LineScore(meta, lines[n]);
      match BestLine(meta, lines[..n])
      case None => if s > 1 then Some(n) else None
      case Some(i) => if s > LineScore(meta, lines[..n][i]) then Some(n) else Some(i)
  }

  lemma {:induction false} BestLineIsBest(meta: Meta, lines: seq<string>)
    ensures IsBest(meta, lines, BestLine(meta, lines))
    decreases |lines|
  {
    if |lines| > 0 {
      BestLineIsBest(meta, lines[..|lines| - 1]);
      BestLineStep(meta, lines, lines[..|lines| - 1]);
    }
  }

  lemma BestLineStep(meta: Meta, lines: seq<string>, p: seq<string>)
    requires |lines| > 0 && p == lines[..|lines| - 1]
    requires IsBest(meta, p, BestLine(meta, p))
    ensures IsBest(meta, lines, BestLine(meta, lines))
  {
    assert forall j :: 0 <= j < |p| ==> p[j] == lines[j];
  }

  /** `max(scores, key=scores.get)` over the kept lines picks the reference
      line. */
  lemma {:induction false} KeptBest(meta: Meta, lines: seq<string>)
    ensures |Kept(meta, lines)| > 0 <==> BestLine(meta, lines).Some?
    ensures |Kept(meta, lines)| > 0 ==>
      Kept(meta, lines)[FirstMax(Scores(Kept(meta, lines)))].0 == lines[BestLine(meta, lines).value]
    decreases |lines|
  {
    if |lines| > 0 {
      var n := |lines| - 1;
      KeptBest(meta, lines[..n]);
      var s := LineScore(meta, lines[n]);
      if s > 1 {
        KeptBestStep(meta, lines, Kept(meta, lines[..n]), s);
      } else {
        KeptBestSkip(meta, lines);
      }
    }
  }

  lemma KeptBestSkip(meta: Meta, lines: seq<string>)
    requires |lines| > 0 && LineScore(meta, lines[|lines| - 1]) <= 1
    requires |Kept(meta, lines[..|lines| - 1])| > 0 <==> BestLine(meta, lines[..|lines| - 1]).Some?
    requires |Kept(meta, lines[..|lines| - 1])| > 0 ==>
      Kept(meta, lines[..|lines| - 1])[FirstMax(Scores(Kept(meta, lines[..|lines| - 1])))].0 ==
        lines[..|lines| - 1][BestLine(meta, lines[..|lines| - 1]).value]
    ensures |Kept(meta, lines)| > 0 <==> BestLine(meta, lines).Some?
    ensures |Kept(meta, lines)| > 0 ==>
      Kept(meta, lines)[FirstMax(Scores(Kept(meta, lines)))].0 == lines[BestLine(meta, lines).value]
  {
    var n := |lines| - 1;
    var p := lines[..n];
    BestLineIsBest(meta, p);
    assert Kept(meta, lines) == Kept(meta, p);
    assert BestLine(meta, lines) == BestLine(meta, p);
    if BestLine(meta, p).Some? {
      assert p[BestLine(meta, p).value] == lines[BestLine(meta, p).value];
    }
  }

  lemma KeptBestStep(meta: Meta, lines: seq<string>, k': seq<(string, int)>, s: int)
    requires |lines| > 0 && k' == Kept(meta, lines[..|lines| - 1])
    requires s == LineScore(meta, lines[|lines| - 1]) && s > 1
    requires |k'| > 0 <==> BestLine(meta, lines[..|lines| - 1]).Some?
    requires |k'| > 0 ==> k'[FirstMax(Scores(k'))].0 == lines[..|lines| - 1][BestLine(meta, lines[..|lines| - 1]).value]
    ensures |Kept(meta, lines)| > 0 && BestLine(meta, lines).Some?
    ensures Kept(meta, lines)[FirstMax(Scores(Kept(meta, lines)))].0 == lines[BestLine(meta, lines).value]
  {
    var n := |lines| - 1;
    var k := Kept(meta, lines);
    assert k == k' + [(lines[n], s)];
    assert Scores(k) == Scores(k') + [s as real];
    if |k'| > 0 {
      var i := BestLine(meta, lines[..n]).value;
      assert lines[..n][i] == lines[i];
      FirstMaxAppend(Scores(k'), s as real);
      assert k[FirstMax(Scores(k'))] == k'[FirstMax(Scores(k'))];
    }
  }

  /** `__getSchool__`: the best kept line, title-cased, or 'NA' when no line
      scores above 1. */
  function GetSchool(meta: Meta, lines: seq<string>): (r: string)
    ensures r == "NA" <==> forall j :: 0 <= j < |lines| ==> LineScore(meta, lines[j]) <= 1
    ensures BestLine(meta, lines).Some? ==> r == Title(lines[BestLine(meta, lines).value])
  {
    var scores := Kept(meta, lines);
    KeptBest(meta, lines);
    BestLineIsBest(meta, lines);
    if |scores| > 0 then
      var best := scores[FirstMax(Scores(scores))].0;
      TitleIsNeverNA(best);
      Title(best)
    else "NA"
  }

  /** The inner loop of `__getName__`: the text of every span labelled
      PERSON. */
  function SpanTexts(spans: seq<Span>): (r: seq<string>)
    ensures |r| == LabelCount(spans, "PERSON")
    ensures forall i :: 0 <= i < |r| ==>
      exists k :: 0 <= k < |spans| && spans[k].kind == "PERSON" && spans[k].text == r[i]
    decreases |spans|
  {
    if |spans| == 0 then []
    else
      var rest := SpanTexts(spans[1..]);
      assert forall i :: 0 <= i < |rest| ==>
        exists k :: 1 <= k < |spans| && spans[k].kind == "PERSON" && spans[k].text == rest[i];
      (if spans[0].kind == "PERSON" then [spans[0].text] else []) + rest
  }

  /** The candidate list of `__getName__`: PERSON span texts, line by line. */
  function PersonSpans(ner: Recognizer, lines: seq<string>): (r: seq<string>)
    ensures |r| == KindCount(ner, lines, "PERSON")
    decreases |lines|
  {
    if |lines| == 0 then []
    else
      var n := |lines| - 1;
      PersonSpans(ner, lines[..n]) + SpanTexts(ner(lines[n]))
  }

  /** `__getName__`: the single PERSON span, not its line, is parsed; any
      other number of PERSON spans gives ('NA', 'NA'). */
  function GetName(ner: Recognizer, lines: seq<string>): (r: Result<(string, string)>)
    ensures r == Ok(("NA", "NA")) <==> KindCount(ner, lines, "PERSON") != 1
    ensures KindCount(ner, lines, "PERSON") == 1 ==> r == ParseName(PersonSpans(ner, lines)[0])
  {
    ParseSole(PersonSpans(ner, lines))
  }

  /** `detectEntity`: the school is looked for when it is missing; only
      otherwise is the name looked for, and writing it passes two
      dictionaries to `dict.update`, which raises `TypeError` once the name
      has been found. So this detector never fills First or Last. */
  function DetectEntity(meta: Meta, ner: Recognizer, nas: seq<string>, lines: seq<string>): (r: Result<TextForm>)
    ensures "School" in nas ==> r == Ok([("School", GetSchool(meta, lines))])
    ensures "School" !in nas && "First" in nas ==> r.Err?
    ensures "School" !in nas && "First" in nas && GetName(ner, lines).Ok? ==> r == Err(TypeError)
    ensures "School" !in nas && "First" !in nas ==> r == Ok([])
    ensures r.Ok? ==> !HasKey(r.value, "First") && !HasKey(r.value, "Last")
  {
    if "School" in nas then Ok([("School", GetSchool(meta, lines))])
    else if "First" in nas then
      var _ :- GetName(ner, lines);
      Err(TypeError)
    else Ok([])
  }
}
