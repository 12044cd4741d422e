/** The current raw-text detector (`MetadataExtraction/RawEntDetector.py`):
    when phase 1 left the first name unresolved, it looks for the one text
    line the recogniser tags as a person and parses that line as a name.
 */
module RawDetector {
  import opened Wrappers
  import opened Text
  import opened OrderedMap
  import opened Lexicon
  import opened Names

  /** A detector's `form`: metadata name -> extracted text. */
  type TextForm = Dict<string, string>

  /** The inner loop of `__getName__`: one copy of `line` per span labelled
      PERSON, so a line naming two people is collected twice. */
  function LineCopies(line: string, spans: seq<Span>): (r: seq<string>)
    ensures |r| == LabelCount(spans, "PERSON")
    ensures forall i :: 0 <= i < |r| ==> r[i] == line
    decreases |spans|
  {
    if |spans| == 0 then []
    else (if spans[0].kind == "PERSON" then [line] else []) + LineCopies(line, spans[1..])
  }

  /** The candidate list of `__getName__`, in line order. */
  function PersonLines(ner: Recognizer, lines: seq<string>): (r: seq<string>)
    ensures |r| == KindCount(ner, lines, "PERSON")
    ensures forall i :: 0 <= i < |r| ==> r[i] in lines
    decreases |lines|
  {
    if |lines| == 0 then []
    else
      var n := |lines| - 1;
      var prev := PersonLines(ner, lines[..n]);
      assert forall i :: 0 <= i < |prev| ==> prev[i] in lines;
      prev + LineCopies(lines[n], ner(lines[n]))
  }

  /** `__getName__`: the single candidate line is parsed with the strict
      grammar; any other number of PERSON spans gives ('NA', 'NA'). */
  function GetName(ner: Recognizer, lines: seq<string>): (r: Result<(string, string)>)
    ensures r == Ok(("NA", "NA")) <==> KindCount(ner, lines, "PERSON") != 1
    ensures KindCount(ner, lines, "PERSON") == 1 ==>
      exists i :: 0 <= i < |lines| && r == ParseName(lines[i])
  {
    var cands := PersonLines(ner, lines);
    assert |cands| == 1 ==> cands[0] in lines;
    ParseSole(cands)
  }

  /** Every line's PERSON spans are among all lines' PERSON spans. */
  lemma {:induction false} KindCountCovers(ner: Recognizer, lines: seq<string>, kind: string, i: nat)
    requires i < |lines|
    ensures LabelCount(ner(lines[i]), kind) <= KindCount(ner, lines, kind)
    decreases |lines|
  {
    var n := |lines| - 1;
    if i < n {
      KindCountCovers(ner, lines[..n], kind, i);
      assert lines[..n][i] == lines[i];
    }
  }

  /** A line naming two people is collected twice, so on its own it already
      defeats the name search. */
  lemma TwoPersonsInOneLine(ner: Recognizer, lines: seq<string>, i: nat)
    requires i < |lines| && LabelCount(ner(lines[i]), "PERSON") >= 2
    ensures GetName(ner, lines) == Ok(("NA", "NA"))
  {
    KindCountCovers(ner, lines, "PERSON", i);
  }

  /** `detectEntity`: the name is looked for only when 'First' is missing,
      and then written into the fresh, empty form. Only the name parse can
      fail. */
  function DetectEntity(ner: Recognizer, nas: seq<string>, lines: seq<string>): (r: Result<TextForm>)
    ensures "First" !in nas ==> r == Ok([])
    ensures r.Err? ==> "First" in nas && GetName(ner, lines).Err?
    ensures "First" in nas && r.Ok? ==>
      GetName(ner, lines).Ok? && r.value == [("First", GetName(ner, lines).value.0), ("Last", GetName(ner, lines).value.1)]
  {
    if "First" in nas then
      var name :- GetName(ner, lines);
      Ok([("First", name.0), ("Last", name.1)])
    else Ok([])
  }

  /** The form written holds the keys First and Last when 'First' was
      missing, and no key otherwise. */
  lemma DetectEntityKeys(ner: Recognizer, nas: seq<string>, lines: seq<string>, k: string)
    requires DetectEntity(ner, nas, lines).Ok?
    ensures HasKey(DetectEntity(ner, nas, lines).value, k) <==> "First" in nas && (k == "First" || k == "Last")
  {
    var f := DetectEntity(ner, nas, lines).value;
    if "First" in nas && (k == "First" || k == "Last") {
      assert f[if k == "First" then 0 else 1].0 == k;
    }
  }
}
