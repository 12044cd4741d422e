/** The strict name grammar shared by the legacy key/value detector and both
    raw-text detectors: `last, remainder = name.split(sep=',')` demands
    exactly one comma, and both halves are stripped of spaces before they
    are title-cased.
 */
module Names {
  import opened Wrappers
  import opened Text

  /** Parses a free-form name into (first, last).
      - one comma: "Last, First [Middle ...]" -> first token after the comma,
        or the whole remainder when it has at most one token;
      - no comma: "First [Middle ...] Last" -> first and last token;
      - two or more commas: the unpack raises `ValueError`;
      - nothing but whitespace: `[0]` on an empty token list raises
        `IndexError`. */
  function ParseName(name: string): (r: Result<(string, string)>)
    ensures r == Err(ValueError) <==> CountChar(name, ',') >= 2
    ensures r == Err(IndexError) <==> ',' !in name && forall i :: 0 <= i < |name| ==> IsSpace(name[i])
    ensures r.Err? ==> r.error == ValueError || r.error == IndexError
    ensures r.Ok? ==> r.value.0 != "NA" && r.value.1 != "NA"
  {
    if ',' in name then CommaHalves(SplitOn(name, ','))
    else
      SplitWsEmptyIff(name);
      OuterTokens(SplitWs(name))
  }

  /** `last, remainder = parts`, then the first token of the remainder when
      it has several, else the whole remainder. */
  function CommaHalves(parts: seq<string>): (r: Result<(string, string)>)
    requires |parts| >= 2
    ensures r == Err(ValueError) <==> |parts| != 2
    ensures r.Err? ==> r.error == ValueError
    ensures r.Ok? ==> r.value.0 != "NA" && r.value.1 != "NA"
  {
    if |parts| != 2 then Err(ValueError)
    else
      var last := Strip(parts[0]);
      var toks := SplitWs(parts[1]);
      var first := Strip(if |toks| > 1 then toks[0] else parts[1]);
      TitleIsNeverNA(first);
      TitleIsNeverNA(last);
      Ok((Title(first), Title(last)))
  }

  /** `toks[0]` and `toks[-1]`; indexing an empty token list raises
      `IndexError`. */
  function OuterTokens(toks: seq<string>): (r: Result<(string, string)>)
    ensures r.Err? <==> |toks| == 0
    ensures r.Err? ==> r.error == IndexError
    ensures r.Ok? ==> r.value.0 != "NA" && r.value.1 != "NA"
  {
    if |toks| == 0 then Err(IndexError)
    else
      TitleIsNeverNA(toks[0]);
      TitleIsNeverNA(toks[|toks| - 1]);
      Ok((Title(toks[0]), Title(toks[|toks| - 1])))
  }

  /** The raw-text detectors parse a name only when exactly one candidate
      was collected, and answer ('NA', 'NA') otherwise. Since a parsed name
      never contains the sentinel, ('NA', 'NA') comes back exactly when the
      candidate count is not one. */
  function ParseSole(cands: seq<string>): (r: Result<(string, string)>)
    ensures r == Ok(("NA", "NA")) <==> |cands| != 1
    ensures |cands| == 1 ==> r == ParseName(cands[0])
  {
    if |cands| == 1 then ParseName(cands[0]) else Ok(("NA", "NA"))
  }

  /** Words of a name: non-empty, without whitespace and without commas. */
  predicate NameWords(ws: seq<string>) {
    forall k :: 0 <= k < |ws| ==> |ws[k]| > 0 && NoSpace(ws[k]) && ',' !in ws[k]
  }

  /** "First Middle ... Last" yields the first and the last word; middle
      words are ignored. */
  lemma ParseSpaceForm(ws: seq<string>)
    requires |ws| >= 1 && NameWords(ws)
    ensures ParseName(JoinWith(ws, " ")) == Ok((Title(ws[0]), Title(ws[|ws| - 1])))
  {
    var s := JoinWith(ws, " ");
    JoinWithout(ws, ',');
    SplitWsJoin(ws);
    assert ParseName(s) == OuterTokens(ws);
  }

  /** A name with exactly one comma is read as its two halves. */
  lemma OneComma(last: string, rest: string)
    requires ',' !in last && ',' !in rest
    ensures ParseName(last + [','] + rest) == CommaHalves([last, rest])
  {
    OneCommaParts(last, rest);
    assert (last + [','] + rest)[|last|] == ',';
  }

  lemma OneCommaParts(last: string, rest: string)
    requires ',' !in last && ',' !in rest
    ensures SplitOn(last + [','] + rest, ',') == [last, rest]
  {
    SplitOnFirst(last, ',', rest);
    SplitOnAbsent(rest, ',');
  }

  /** The text after the comma of "Last, First Middle ...": its words are
      the name words, and it holds no comma. */
  lemma AfterComma(ws: seq<string>)
    requires NameWords(ws)
    ensures SplitWs(" " + JoinWith(ws, " ")) == ws
    ensures ',' !in " " + JoinWith(ws, " ")
  {
    JoinWithout(ws, ',');
    SplitWsJoin(ws);
    SplitWsSpaceThen(JoinWith(ws, " "));
  }

  lemma CommaSpace(last: string, t: string)
    ensures last + ", " + t == last + [','] + (" " + t)
  {
  }

  /** Two halves whose remainder has several words give its first word. */
  lemma HalvesOfWords(last: string, rest: string, ws: seq<string>)
    requires SplitWs(rest) == ws && |ws| >= 2 && NameWords(ws)
    ensures CommaHalves([last, rest]) == Ok((Title(ws[0]), Title(Strip(last))))
  {
    StripUnpadded(ws[0]);
  }

  /** "Last, First Middle ..." yields the first word after the comma and the
      stripped text before it. */
  lemma ParseCommaForm(last: string, ws: seq<string>)
    requires ',' !in last
    requires |ws| >= 2 && NameWords(ws)
    ensures ParseName(last + ", " + JoinWith(ws, " ")) == Ok((Title(ws[0]), Title(Strip(last))))
  {
    var rest := " " + JoinWith(ws, " ");
    CommaSpace(last, JoinWith(ws, " "));
    AfterComma(ws);
    OneComma(last, rest);
    HalvesOfWords(last, rest, ws);
  }

  /** "Last, First" with a single word after the comma yields that word. */
  lemma ParseCommaSingle(last: string, w: string)
    requires ',' !in last
    requires NameWords([w])
    ensures ParseName(last + ", " + w) == Ok((Title(w), Title(Strip(last))))
  {
    var rest := " " + w;
    assert [w][0] == w;
    assert last + ", " + w == last + [','] + rest;
    SplitOnFirst(last, ',', rest);
    SplitOnAbsent(rest, ',');
    SplitWsSpaceThen(w);
    SplitWsJoin([w]);
    StripLeadingSpace(w);
  }

  lemma ExampleWords()
    ensures Title("Jane") == "Jane" && Title("Doe") == "Doe" && Strip("Doe") == "Doe"
  {
    StripUnpadded("Doe");
  }

  lemma ParseCommaExample(name: string)
    requires name == "Doe, Jane Marie"
    ensures ParseName(name) == Ok(("Jane", "Doe"))
  {
    var ws := ["Jane", "Marie"];
    assert NameWords(ws) && name == "Doe" + ", " + JoinWith(ws, " ") by {
      assert JoinWith(ws, " ") == "Jane Marie";
    }
    ParseCommaForm("Doe", ws);
    ExampleWords();
  }

  lemma ParseSpaceExample(name: string)
    requires name == "Jane Marie Doe"
    ensures ParseName(name) == Ok(("Jane", "Doe"))
  {
    var ws := ["Jane", "Marie", "Doe"];
    assert NameWords(ws) && name == JoinWith(ws, " ");
    ParseSpaceForm(ws);
    ExampleWords();
  }
}
