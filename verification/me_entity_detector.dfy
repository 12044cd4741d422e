/** The current key/value detector (`MetadataExtraction/EntityDetector.py`):
    scores every key/value pair against Name and Grad, keeps the pairs whose
    score plus a top-of-page bonus clears the threshold, and resolves the
    first name, last name and graduation year from the kept pairs.
 */
module KvDetector {
  import opened Wrappers
  import opened Text
  import opened OrderedMap
  import opened Lexicon
  import opened Select
  import opened Dates
  import opened Names

  /** A `getMapping` entry `{'Value': ..., 'Top': ...}`: the value text and
      the key's distance from the page top as a fraction of its height. */
  datatype Field = Field(value: string, top: real)

  type Mappings = Dict<string, Field>

  /** The detector's `form`: 'First', 'Last', 'Grad'. */
  datatype KvForm = KvForm(first: string, last: string, grad: string)

  /** Anti-alias hits weigh -10 on both sides in this detector. */
  const AntiAliasPenalty: int := -10

  /** The alias part of the score: +1 per key alias and +2 per value alias
      found, -10 per anti-alias found on either side. */
  function AliasScore(meta: Meta, key: string, value: string, name: Attr): int {
    var k, v := Lower(key), Lower(value);
    Hits(meta.key.Of(name).alias, k) + AntiAliasPenalty * Hits(meta.key.Of(name).antialias, k)
    + 2 * Hits(meta.value.Of(name).alias, v) + AntiAliasPenalty * Hits(meta.value.Of(name).antialias, v)
  }

  /** `__getScore__`: four alias loops over the lower-cased texts, then +2 per
      recognised span labelled with the attribute's entity type. */
  function Score(meta: Meta, ner: Recognizer, key: string, value: string, name: Attr): (s: int)
    ensures s == AliasScore(meta, key, value, name) + 2 * LabelCount(ner(value), Translator(name))
  {
    var k, v := Lower(key), Lower(value);
    var ka, va := meta.key.Of(name), meta.value.Of(name);
    var s1 := Accumulate(ka.alias, k, 1, 0);
    var s2 := Accumulate(ka.antialias, k, AntiAliasPenalty, s1);
    var s3 := Accumulate(va.alias, v, 2, s2);
    var s4 := Accumulate(va.antialias, v, AntiAliasPenalty, s3);
    AccumulateCountsHits(ka.alias, k, 1, 0);
    AccumulateCountsHits(ka.antialias, k, AntiAliasPenalty, s1);
    AccumulateCountsHits(va.alias, v, 2, s2);
    AccumulateCountsHits(va.antialias, v, AntiAliasPenalty, s3);
    s4 + 2 * LabelCount(ner(value), Translator(name))
  }

  /** One more value alias that occurs in the value raises the score by
      exactly 2, whatever else the configuration holds. */
  lemma ScoreValueAliasAdded(meta: Meta, meta': Meta, ner: Recognizer, key: string, value: string, name: Attr, a: string)
    requires meta'.key.Of(name) == meta.key.Of(name)
    requires meta'.value.Of(name) == Aliases(meta.value.Of(name).alias + [a], meta.value.Of(name).antialias)
    requires Contains(Lower(value), a)
    ensures Score(meta', ner, key, value, name) == Score(meta, ner, key, value, name) + 2
  {
    HitsAppend(meta.value.Of(name).alias, a, Lower(value));
  }

  /** `classify`: both texts are title-cased, Name and Grad are scored, and
      `max` over the dict {'Name', 'Grad'} keeps the first of equal scores.
      Title-casing leaves the alias hits unchanged; only the recogniser sees
      the title-cased value. */
  function Classify(meta: Meta, ner: Recognizer, k: string, v: string): (r: (Attr, int))
    ensures r.0 == Name || r.0 == Grad
    ensures r.1 == Score(meta, ner, Title(k), Title(v), r.0)
    ensures r.1 >= Score(meta, ner, Title(k), Title(v), Name)
    ensures r.1 >= Score(meta, ner, Title(k), Title(v), Grad)
    ensures r.0 == Grad ==> Score(meta, ner, Title(k), Title(v), Name) < r.1
    ensures r.1 == AliasScore(meta, k, v, r.0) + 2 * LabelCount(ner(Title(v)), Translator(r.0))
  {
    var kt, vt := Title(k), Title(v);
    LowerTitle(k);
    LowerTitle(v);
    var attrs := [Name, Grad];
    var scores := [Score(meta, ner, kt, vt, Name), Score(meta, ner, kt, vt, Grad)];
    var i := FirstMax([scores[0] as real, scores[1] as real]);
    (attrs[i], scores[i])
  }

  /** What `detectEntityKV` does with one pair: nothing when the value is
      empty or the classification score plus the bonus `1 - Top` is not
      strictly above 2; otherwise it files the pair under its attribute with
      that total. */
  function Verdict(meta: Meta, ner: Recognizer, k: string, f: Field): (r: Option<(Attr, real)>)
    ensures r.Some? ==> |f.value| > 0 && r.value.1 > 2.0
    ensures r.Some? ==> r.value.0 == Classify(meta, ner, k, f.value).0
    ensures r.Some? <==> |f.value| > 0 && Classify(meta, ner, k, f.value).1 as real + (1.0 - f.top) > 2.0
  {
    if |f.value| > 0 then
      var (a, s) := Classify(meta, ner, k, f.value);
      var total := s as real + (1.0 - f.top);
      if total > 2.0 then Some((a, total)) else None
    else None
  }

  /** A pair kept in the bucket of `a`. */
  predicate Retained(meta: Meta, ner: Recognizer, k: string, f: Field, a: Attr) {
    var v := Verdict(meta, ner, k, f);
    v.Some? && v.value.0 == a
  }

  datatype Buckets = Buckets(name: Bucket, grad: Bucket)

  /** The bucket-filling loop of `detectEntityKV`, over the mappings in
      order; each kept pair is written with `dict.update`. An attribute
      none of whose pairs is retained keeps an empty bucket. */
  function Bucketize(meta: Meta, ner: Recognizer, m: Mappings): (b: Buckets)
    ensures (forall j :: 0 <= j < |m| ==> !Retained(meta, ner, m[j].0, m[j].1, Name)) ==> b.name == []
    ensures (forall j :: 0 <= j < |m| ==> !Retained(meta, ner, m[j].0, m[j].1, Grad)) ==> b.grad == []
    decreases |m|
  {
    if |m| == 0 then Buckets([], [])
    else
      var n := |m| - 1;
      var prev := Bucketize(meta, ner, m[..n]);
      assert forall j :: 0 <= j < n ==> m[..n][j] == m[j];
      var (k, f) := m[n];
      match Verdict(meta, ner, k, f)
      case None => prev
      case Some((a, total)) =>
        if a == Name then prev.(name := Put(prev.name, k, Scored(f.value, total)))
        else prev.(grad := Put(prev.grad, k, Scored(f.value, total)))
  }

  /** Reference definition: the retained pairs of `a`, in mapping order,
      each with its total. */
  function Retain(meta: Meta, ner: Recognizer, m: Mappings, a: Attr): Bucket
    decreases |m|
  {
    if |m| == 0 then []
    else
      var n := |m| - 1;
      var (k, f) := m[n];
      Retain(meta, ner, m[..n], a)
      + (if Retained(meta, ner, k, f, a) then [(k, Scored(f.value, Verdict(meta, ner, k, f).value.1))] else [])
  }

  /** Every kept entry has a non-empty value and a total strictly above 2. */
  lemma {:induction false} RetainBounds(meta: Meta, ner: Recognizer, m: Mappings, a: Attr)
    ensures |Retain(meta, ner, m, a)| <= |m|
    ensures forall i :: 0 <= i < |Retain(meta, ner, m, a)| ==>
      |Retain(meta, ner, m, a)[i].1.value| > 0 && Retain(meta, ner, m, a)[i].1.score > 2.0
    decreases |m|
  {
    if |m| > 0 {
      var n := |m| - 1;
      RetainBounds(meta, ner, m[..n], a);
      var r, p := Retain(meta, ner, m, a), Retain(meta, ner, m[..n], a);
      assert forall i :: 0 <= i < |p| ==> r[i] == p[i];
    }
  }

  /** No pair of `m` is retained for `a`. */
  predicate NoneRetained(meta: Meta, ner: Recognizer, m: Mappings, a: Attr) {
    forall j :: 0 <= j < |m| ==> !Retained(meta, ner, m[j].0, m[j].1, a)
  }

  /** A bucket is empty exactly when no pair is retained for it. */
  lemma {:induction false} RetainEmpty(meta: Meta, ner: Recognizer, m: Mappings, a: Attr)
    ensures |Retain(meta, ner, m, a)| == 0 <==> NoneRetained(meta, ner, m, a)
    decreases |m|
  {
    if |m| > 0 {
      RetainEmpty(meta, ner, m[..|m| - 1], a);
      RetainEmptyStep(meta, ner, m, a);
    }
  }

  lemma RetainEmptyStep(meta: Meta, ner: Recognizer, m: Mappings, a: Attr)
    requires |m| > 0
    requires |Retain(meta, ner, m[..|m| - 1], a)| == 0 <==> NoneRetained(meta, ner, m[..|m| - 1], a)
    ensures |Retain(meta, ner, m, a)| == 0 <==> NoneRetained(meta, ner, m, a)
  {
    assert |Retain(meta, ner, m, a)| == 0 <==>
      |Retain(meta, ner, m[..|m| - 1], a)| == 0 && !Retained(meta, ner, m[|m| - 1].0, m[|m| - 1].1, a);
    NoneRetainedSplit(meta, ner, m, a);
  }

  lemma NoneRetainedSplit(meta: Meta, ner: Recognizer, m: Mappings, a: Attr)
    requires |m| > 0
    ensures NoneRetained(meta, ner, m, a) <==>
      NoneRetained(meta, ner, m[..|m| - 1], a) && !Retained(meta, ner, m[|m| - 1].0, m[|m| - 1].1, a)
  {
    NoneSplit(m, m[..|m| - 1], (e: (string, Field)) => Retained(meta, ner, e.0, e.1, a));
  }

  lemma NoneSplit<T>(xs: seq<T>, prefix: seq<T>, bad: T -> bool)
    requires |xs| > 0 && prefix == xs[..|xs| - 1]
    ensures (forall j :: 0 <= j < |xs| ==> !bad(xs[j])) <==>
      (forall j :: 0 <= j < |prefix| ==> !bad(prefix[j])) && !bad(xs[|xs| - 1])
  {
    assert forall j :: 0 <= j < |prefix| ==> prefix[j] == xs[j];
  }

  /** A key can only be kept if the mappings have it. */
  lemma {:induction false} RetainKeys(meta: Meta, ner: Recognizer, m: Mappings, a: Attr, k: string)
    requires HasKey(Retain(meta, ner, m, a), k)
    ensures HasKey(m, k)
    decreases |m|
  {
    var n := |m| - 1;
    var r := Retain(meta, ner, m, a);
    var p := Retain(meta, ner, m[..n], a);
    var i :| 0 <= i < |r| && r[i].0 == k;
    if i < |p| {
      assert p[i].0 == k;
      RetainKeys(meta, ner, m[..n], a, k);
      var j :| 0 <= j < n && m[..n][j].0 == k;
      assert m[j].0 == k;
    } else {
      assert m[n].0 == k;
    }
  }

  /** The last key of distinct-keyed mappings is not among the keys before
      it, so no bucket built from those holds it. */
  lemma LastKeyFresh(meta: Meta, ner: Recognizer, m: Mappings, a: Attr)
    requires |m| > 0 && DistinctKeys(m)
    ensures !HasKey(Retain(meta, ner, m[..|m| - 1], a), m[|m| - 1].0)
  {
    var n := |m| - 1;
    if HasKey(Retain(meta, ner, m[..n], a), m[n].0) {
      RetainKeys(meta, ner, m[..n], a, m[n].0);
    }
  }

  /** With distinct keys (every mapping `getMapping` builds has them) each
      bucket holds exactly the retained pairs of its attribute, in mapping
      order: `update` only ever appends. */
  lemma {:induction false} BucketizeRetains(meta: Meta, ner: Recognizer, m: Mappings)
    requires DistinctKeys(m)
    ensures Bucketize(meta, ner, m).name == Retain(meta, ner, m, Name)
    ensures Bucketize(meta, ner, m).grad == Retain(meta, ner, m, Grad)
    decreases |m|
  {
    if |m| > 0 {
      var n := |m| - 1;
      assert DistinctKeys(m[..n]);
      BucketizeRetains(meta, ner, m[..n]);
      LastKeyFresh(meta, ner, m, Name);
      LastKeyFresh(meta, ner, m, Grad);
    }
  }

  /** Every entry of either bucket has a non-empty value and a total
      strictly above 2. */
  lemma BucketEntries(meta: Meta, ner: Recognizer, m: Mappings)
    requires DistinctKeys(m)
    ensures forall i :: 0 <= i < |Bucketize(meta, ner, m).name| ==>
      |Bucketize(meta, ner, m).name[i].1.value| > 0 && Bucketize(meta, ner, m).name[i].1.score > 2.0
    ensures forall i :: 0 <= i < |Bucketize(meta, ner, m).grad| ==>
      |Bucketize(meta, ner, m).grad[i].1.value| > 0 && Bucketize(meta, ner, m).grad[i].1.score > 2.0
  {
    BucketizeRetains(meta, ner, m);
    RetainBounds(meta, ner, m, Name);
    RetainBounds(meta, ner, m, Grad);
  }

  /** `__getName__` of this detector. With no candidates it answers
      ('NA', 'NA'). When one key is labelled 'first' and another 'last' it
      answers their raw values, not title-cased. Otherwise it parses the
      best-scored value with the lenient grammar. */
  function GetName(names: Bucket): (r: Result<(string, string)>)
    ensures |names| == 0 ==> r == Ok(("NA", "NA"))
    ensures ((exists i :: 0 <= i < |names| && IsFirstLabel(names[i].0))
          && (exists i :: 0 <= i < |names| && IsLastLabel(names[i].0))) ==>
      LastLabelled(names, StopAt(names), true).Some? && LastLabelled(names, StopAt(names), false).Some?
      && r == Ok((LastLabelled(names, StopAt(names), true).value, LastLabelled(names, StopAt(names), false).value))
    ensures |names| > 0 && ((forall i :: 0 <= i < |names| ==> !IsFirstLabel(names[i].0))
                         || (forall i :: 0 <= i < |names| ==> !IsLastLabel(names[i].0))) ==>
      r == ParseNameLoose(GetMax(names))
    ensures r.Err? ==> r.error == IndexError
  {
    if |names| == 0 then Ok(("NA", "NA"))
    else
      var (first, last) := LabeledScan(names);
      if first.Some? && last.Some? then Ok((first.value, last.value))
      else ParseNameLoose(GetMax(names))
  }

  /** The fallback grammar of this detector. A comma splits "Last, First":
      any number of commas is accepted and only the text up to the second
      one is read; the first name is title-cased before it is stripped.
      Without a comma the first and last whitespace tokens are taken, and a
      name of whitespace only raises `IndexError`. */
  function ParseNameLoose(name: string): (r: Result<(string, string)>)
    ensures r.Err? <==> ',' !in name && forall i :: 0 <= i < |name| ==> IsSpace(name[i])
    ensures r.Err? ==> r.error == IndexError
    ensures r.Ok? ==> r.value.1 != "NA"
  {
    if ',' in name then Ok(LooseHalves(SplitOn(name, ',')))
    else
      SplitWsEmptyIff(name);
      OuterTokens(SplitWs(name))
  }

  /** The halves before and after the first comma; later ones are unread. */
  function LooseHalves(parts: seq<string>): (r: (string, string))
    requires |parts| >= 2
    ensures r.1 != "NA"
  {
    var last := Title(Strip(parts[0]));
    var toks := SplitWs(parts[1]);
    var first := if |toks| > 1 then Title(toks[0]) else Title(parts[1]);
    TitleIsNeverNA(Strip(parts[0]));
    (Strip(first), last)
  }

  /** The comma of "Last, First Middle" followed by a further comma: the
      first two parts are the two halves. */
  lemma LooseSplit(last: string, rest: string, t: string)
    requires ',' !in last && ',' !in rest
    ensures |SplitOn(last + [','] + (rest + [','] + t), ',')| >= 2
    ensures SplitOn(last + [','] + (rest + [','] + t), ',')[0] == last
    ensures SplitOn(last + [','] + (rest + [','] + t), ',')[1] == rest
  {
    SplitOnFirst(last, ',', rest + [','] + t);
    SplitOnFirst(rest, ',', t);
  }

  lemma CommaIn(last: string, after: string)
    ensures ',' in last + [','] + after
  {
    assert (last + [','] + after)[|last|] == ',';
  }

  /** A remainder of several name words gives the first word, title-cased. */
  lemma LooseHalvesOfWords(parts: seq<string>, ws: seq<string>)
    requires |parts| >= 2 && SplitWs(parts[1]) == ws
    requires |ws| >= 2 && NameWords(ws)
    ensures LooseHalves(parts) == (Title(ws[0]), Title(Strip(parts[0])))
  {
    var t := Title(ws[0]);
    TitleKeepsSpaces(ws[0]);
    assert t[0] != ' ' && t[|t| - 1] != ' ';
    StripUnpadded(t);
  }

  /** Unlike the strict grammar, text from a second comma on is ignored:
      "Last, First Middle, Suffix" parses as "Last, First Middle". */
  lemma LooseCommaForm(last: string, ws: seq<string>, tail: string)
    requires ',' !in last
    requires |ws| >= 2 && NameWords(ws)
    requires tail == "" || tail[0] == ','
    ensures ParseNameLoose(last + ", " + JoinWith(ws, " ") + tail) == Ok((Title(ws[0]), Title(Strip(last))))
  {
    var rest := " " + JoinWith(ws, " ");
    CommaSpaceTail(last, JoinWith(ws, " "), tail);
    AfterComma(ws);
    if tail == "" {
      assert rest + tail == rest;
      LooseOneComma(last, rest, ws);
    } else {
      CommaHead(rest, tail);
      LooseMoreCommas(last, rest, tail[1..], ws);
    }
  }

  lemma CommaSpaceTail(last: string, t: string, tail: string)
    ensures last + ", " + t + tail == last + [','] + ((" " + t) + tail)
  {
  }

  lemma CommaHead(rest: string, tail: string)
    requires |tail| > 0 && tail[0] == ','
    ensures rest + tail == rest + [','] + tail[1..]
  {
    assert tail == [','] + tail[1..];
  }

  lemma LooseOneComma(last: string, rest: string, ws: seq<string>)
    requires ',' !in last && ',' !in rest
    requires SplitWs(rest) == ws && |ws| >= 2 && NameWords(ws)
    ensures ParseNameLoose(last + [','] + rest) == Ok((Title(ws[0]), Title(Strip(last))))
  {
    CommaIn(last, rest);
    OneCommaParts(last, rest);
    LooseHalvesOfWords([last, rest], ws);
  }

  lemma LooseMoreCommas(last: string, rest: string, t: string, ws: seq<string>)
    requires ',' !in last && ',' !in rest
    requires SplitWs(rest) == ws && |ws| >= 2 && NameWords(ws)
    ensures ParseNameLoose(last + [','] + (rest + [','] + t)) == Ok((Title(ws[0]), Title(Strip(last))))
  {
    var s := last + [','] + (rest + [','] + t);
    CommaIn(last, rest + [','] + t);
    LooseSplit(last, rest, t);
    LooseHalvesOfWords(SplitOn(s, ','), ws);
  }

  /** "Last, First" where the text after the first comma holds at most one
      word: that text, title-cased and stripped, is the first name, and
      anything from a second comma on is ignored. */
  lemma LooseCommaShort(last: string, rest: string, tail: string)
    requires ',' !in last && ',' !in rest
    requires |SplitWs(rest)| <= 1
    requires tail == "" || tail[0] == ','
    ensures ParseNameLoose(last + [','] + (rest + tail)) == Ok((Title(Strip(rest)), Title(Strip(last))))
  {
    var s := last + [','] + (rest + tail);
    CommaIn(last, rest + tail);
    if tail == "" {
      assert rest + tail == rest;
      OneCommaParts(last, rest);
    } else {
      CommaHead(rest, tail);
      LooseSplit(last, rest, tail[1..]);
    }
    LooseHalvesOfWord(SplitOn(s, ','));
  }

  /** A remainder of at most one word gives that remainder, stripped. */
  lemma LooseHalvesOfWord(parts: seq<string>)
    requires |parts| >= 2 && |SplitWs(parts[1])| <= 1
    ensures LooseHalves(parts) == (Title(Strip(parts[1])), Title(Strip(parts[0])))
  {
    StripTitle(parts[1]);
  }

  /** "Last, Word, Suffix": a single word between the first two commas is
      the first name, and the suffix is dropped. */
  lemma LooseSuffixWord(last: string, w: string, suffix: string)
    requires ',' !in last && ',' !in w
    requires |w| > 0 && NoSpace(w)
    ensures ParseNameLoose(last + ", " + w + ", " + suffix) == Ok((Title(w), Title(Strip(last))))
  {
    var rest := " " + w;
    assert last + ", " + w + ", " + suffix == last + [','] + (rest + (", " + suffix));
    assert ',' !in rest by {
      assert forall i :: 0 <= i < |rest| ==> rest[i] == ' ' || rest[i] == w[i - 1];
    }
    SplitWsSpaceThen(w);
    assert JoinWith([w], " ") == w;
    SplitWsJoin([w]);
    StripLeadingSpace(w);
    LooseCommaShort(last, rest, ", " + suffix);
  }

  /** "Doe, Jane, Jr." parses as ('Jane', 'Doe'). */
  lemma LooseSuffixExample(name: string)
    requires name == "Doe, Jane, Jr."
    ensures ParseNameLoose(name) == Ok(("Jane", "Doe"))
  {
    var last, w, suffix := "Doe", "Jane", "Jr.";
    assert name == last + ", " + w + ", " + suffix;
    LooseSuffixWord(last, w, suffix);
    ExampleWords();
  }

  /** With at most one comma the loose grammar agrees with the strict one,
      on the "Last, First" forms and the "First ... Last" form alike, and on
      the all-blank name that fails: the two differ only from a second
      comma on, where the strict grammar raises `ValueError`. */
  lemma LooseAgreesStrict(name: string)
    requires CountChar(name, ',') <= 1
    ensures ParseNameLoose(name) == ParseName(name)
  {
    if ',' in name {
      var parts := SplitOn(name, ',');
      var toks := SplitWs(parts[1]);
      StripTitle(if |toks| > 1 then toks[0] else parts[1]);
    }
  }

  /** `processDate` with `strftime("%Y")`: 'NA' exactly when the parser
      rejects the text, otherwise the year's digits. */
  function ProcessDate(parse: DateParser, date: string): (r: string)
    ensures r == "NA" <==> parse(date).None?
    ensures parse(date).Some? ==> AllDigits(r) && ValueOf(r) == parse(date).value.year
  {
    match parse(date)
    case None => "NA"
    case Some(dt) =>
      DecimalRoundTrip(dt.year);
      assert !IsDigit('N');
      FormatYear(dt)
  }

  /** `detectEntityKV`: fill the buckets, resolve the name from the Name
      bucket and the year from the best Grad value. Only the name parse can
      fail. Over distinct keys, as `getMapping` builds them, the buckets are
      the retained pairs of each attribute. */
  function DetectEntityKV(meta: Meta, ner: Recognizer, parse: DateParser, m: Mappings): (r: Result<KvForm>)
    ensures r.Err? ==> r.error == IndexError
    ensures (forall j :: 0 <= j < |m| ==> !Retained(meta, ner, m[j].0, m[j].1, Name)) ==>
      r.Ok? && r.value.first == "NA" && r.value.last == "NA"
    ensures (forall j :: 0 <= j < |m| ==> !Retained(meta, ner, m[j].0, m[j].1, Grad)) ==>
      r.Ok? ==> r.value.grad == ProcessDate(parse, "NA")
    ensures r.Ok? ==> (r.value.grad == "NA" <==> parse(GetMax(Bucketize(meta, ner, m).grad)).None?)
    ensures DistinctKeys(m) ==> (r.Err? <==> GetName(Retain(meta, ner, m, Name)).Err?)
    ensures DistinctKeys(m) && r.Ok? ==> (r.value.first, r.value.last) == GetName(Retain(meta, ner, m, Name)).value
    ensures DistinctKeys(m) && r.Ok? ==> r.value.grad == ProcessDate(parse, GetMax(Retain(meta, ner, m, Grad)))
  {
    var b := Bucketize(meta, ner, m);
    assert DistinctKeys(m) ==> b == Buckets(Retain(meta, ner, m, Name), Retain(meta, ner, m, Grad)) by {
      if DistinctKeys(m) {
        BucketizeRetains(meta, ner, m);
      }
    }
    var name :- GetName(b.name);
    Ok(KvForm(name.0, name.1, ProcessDate(parse, GetMax(b.grad))))
  }
}
