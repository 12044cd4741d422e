/** The legacy key/value detector (`EntityDetector.py` at the repository
    root): scores every key/value pair against Name, Grad and School from the
    key text alone plus the recogniser, keeps a pair whose score exceeds 1,
    and lets every kept pair replace its attribute's bucket.
 */
module LegacyKvDetector {
  import opened Wrappers
  import opened Text
  import opened OrderedMap
  import opened Lexicon
  import opened Select
  import opened Dates
  import opened Names

  /** The detector's input: key text -> value text. */
  type TextMapping = Dict<string, string>

  /** The detector's `form`: 'First', 'Last', 'Grad', 'School'. */
  datatype LegacyForm = LegacyForm(first: string, last: string, grad: string, school: string)

  /** `__getScore__`: +1 per `kv` alias and -1 per `kv` anti-alias found in
      the lower-cased key, then +2 per recognised span of the value labelled
      with the attribute's entity type. The value text itself is never
      matched against aliases. */
  function Score(meta: Meta, ner: Recognizer, key: string, value: string, name: Attr): (s: int)
    ensures s == Hits(meta.kv.Of(name).alias, Lower(key)) - Hits(meta.kv.Of(name).antialias, Lower(key))
                 + 2 * LabelCount(ner(value), Translator(name))
  {
    var k := Lower(key);
    var ka := meta.kv.Of(name);
    var s1 := Accumulate(ka.alias, k, 1, 0);
    var s2 := Accumulate(ka.antialias, k, -1, s1);
    AccumulateCountsHits(ka.alias, k, 1, 0);
    AccumulateCountsHits(ka.antialias, k, -1, s1);
    s2 + 2 * LabelCount(ner(value), Translator(name))
  }

  /** One more key anti-alias that occurs in the key lowers the score by
      exactly 1. */
  lemma ScoreAntiAliasAdded(meta: Meta, meta': Meta, ner: Recognizer, key: string, value: string, name: Attr, a: string)
    requires meta'.kv.Of(name) == Aliases(meta.kv.Of(name).alias, meta.kv.Of(name).antialias + [a])
    requires Contains(Lower(key), a)
    ensures Score(meta', ner, key, value, name) == Score(meta, ner, key, value, name) - 1
  {
    HitsAppend(meta.kv.Of(name).antialias, a, Lower(key));
  }

  /** `classify`: Name, Grad and School are scored on the untouched texts and
      `max` keeps the first of equal scores, in that order. */
  function Classify(meta: Meta, ner: Recognizer, k: string, v: string): (r: (Attr, int))
    ensures r.0 == Name || r.0 == Grad || r.0 == School
    ensures r.1 == Score(meta, ner, k, v, r.0)
    ensures r.1 >= Score(meta, ner, k, v, Name)
    ensures r.1 >= Score(meta, ner, k, v, Grad)
    ensures r.1 >= Score(meta, ner, k, v, School)
    ensures r.0 != Name ==> Score(meta, ner, k, v, Name) < r.1
    ensures r.0 == School ==> Score(meta, ner, k, v, Grad) < r.1
  {
    var attrs := [Name, Grad, School];
    var scores := [Score(meta, ner, k, v, Name), Score(meta, ner, k, v, Grad), Score(meta, ner, k, v, School)];
    var xs := [scores[0] as real, scores[1] as real, scores[2] as real];
    var i := FirstMax(xs);
    assert xs[0] <= xs[i] && xs[1] <= xs[i] && xs[2] <= xs[i];
    assert i > 1 ==> xs[1] < xs[i];
    (attrs[i], scores[i])
  }

  /** What `detectEntity` does with one pair: keep it under its class when
      the class score is strictly above 1. */
  function Accepts(meta: Meta, ner: Recognizer, k: string, v: string): (r: Option<(Attr, int)>)
    ensures r.Some? <==> Classify(meta, ner, k, v).1 > 1
    ensures r.Some? ==> r.value == Classify(meta, ner, k, v) && r.value.1 >= 2
  {
    var (a, s) := Classify(meta, ner, k, v);
    if s > 1 then Some((a, s)) else None
  }

  /** The verdict on one pair: the class it is kept under with its score,
      or nothing. */
  type Kept = Option<(Attr, int)>

  predicate KeptAs(v: Kept, a: Attr) {
    v.Some? && v.value.0 == a
  }

  /** The verdicts on all pairs, in mapping order. */
  function Verdicts(meta: Meta, ner: Recognizer, m: TextMapping): seq<Kept> {
    seq(|m|, j requires 0 <= j < |m| => Accepts(meta, ner, m[j].0, m[j].1))
  }

  datatype LegacyBuckets = LegacyBuckets(name: Bucket, grad: Bucket, school: Bucket) {
    function Of(a: Attr): Bucket {
      match a
      case Name => name
      case Grad => grad
      case School => school
      case Dob => []
    }
  }

  /** The bucket-filling loop of `detectEntity`: a kept pair replaces the
      whole bucket of its class with a one-entry dictionary. */
  function Fill(meta: Meta, ner: Recognizer, m: TextMapping): (b: LegacyBuckets)
    ensures |b.name| <= 1 && |b.grad| <= 1 && |b.school| <= 1
  {
    FillFrom(m, Verdicts(meta, ner, m))
  }

  function FillFrom(m: TextMapping, vs: seq<Kept>): (b: LegacyBuckets)
    requires |vs| == |m|
    ensures |b.name| <= 1 && |b.grad| <= 1 && |b.school| <= 1
    decreases |m|
  {
    if |m| == 0 then LegacyBuckets([], [], [])
    else
      var n := |m| - 1;
      var prev := FillFrom(m[..n], vs[..n]);
      match vs[n]
      case None => prev
      case Some((a, s)) =>
        var e := [(m[n].0, Scored(m[n].1, s as real))];
        if a == Name then prev.(name := e)
        else if a == Grad then prev.(grad := e)
        else prev.(school := e)
  }

  /** The position of the last verdict keeping a pair under `a`, if any. */
  function LastIndex(vs: seq<Kept>, a: Attr): (r: Option<nat>)
    ensures r.None? <==> forall j :: 0 <= j < |vs| ==> !KeptAs(vs[j], a)
    ensures r.Some? ==> r.value < |vs| && KeptAs(vs[r.value], a)
    ensures r.Some? ==> forall j :: r.value < j < |vs| ==> !KeptAs(vs[j], a)
    decreases |vs|
  {
    if |vs| == 0 then None
    else
      var n := |vs| - 1;
      assert forall j :: 0 <= j < n ==> vs[..n][j] == vs[j];
      if KeptAs(vs[n], a) then Some(n)
      else LastIndex(vs[..n], a)
  }

  /** Reference definition: the last pair kept under `a`, with its score, as
      a bucket of at most one entry. */
  function LastAccepted(m: TextMapping, vs: seq<Kept>, a: Attr): (r: Bucket)
    requires |vs| == |m|
    ensures |r| <= 1
    ensures |r| == 0 <==> forall j :: 0 <= j < |vs| ==> !KeptAs(vs[j], a)
  {
    match LastIndex(vs, a)
    case None => []
    case Some(j) => [(m[j].0, Scored(m[j].1, vs[j].value.1 as real))]
  }

  /** Replacing the bucket on every kept pair leaves, per class, exactly the
      last kept pair of that class. */
  lemma {:induction false} FillFromIsLast(m: TextMapping, vs: seq<Kept>, a: Attr)
    requires |vs| == |m|
    requires a != Dob && forall j :: 0 <= j < |vs| ==> !KeptAs(vs[j], Dob)
    ensures FillFrom(m, vs).Of(a) == LastAccepted(m, vs, a)
    decreases |m|
  {
    if |m| > 0 {
      var n := |m| - 1;
      assert forall j :: 0 <= j < n ==> vs[..n][j] == vs[j];
      FillFromIsLast(m[..n], vs[..n], a);
      FillFromStep(m, vs, a);
    }
  }

  lemma FillFromStep(m: TextMapping, vs: seq<Kept>, a: Attr)
    requires |vs| == |m| > 0
    requires a != Dob && !KeptAs(vs[|vs| - 1], Dob)
    requires FillFrom(m[..|m| - 1], vs[..|vs| - 1]).Of(a) == LastAccepted(m[..|m| - 1], vs[..|vs| - 1], a)
    ensures FillFrom(m, vs).Of(a) == LastAccepted(m, vs, a)
  {
    if KeptAs(vs[|vs| - 1], a) {
      FillKept(m, vs, a);
    } else {
      FillSkips(m, vs, a);
      LastAcceptedSkips(m, vs, a);
    }
  }

  /** A pair kept under `a` becomes the whole bucket of `a`. */
  lemma FillKept(m: TextMapping, vs: seq<Kept>, a: Attr)
    requires |vs| == |m| > 0 && a != Dob && KeptAs(vs[|vs| - 1], a)
    ensures FillFrom(m, vs).Of(a) == LastAccepted(m, vs, a)
  {
    assert LastIndex(vs, a) == Some(|vs| - 1);
  }

  lemma FillSkips(m: TextMapping, vs: seq<Kept>, a: Attr)
    requires |vs| == |m| > 0 && a != Dob && !KeptAs(vs[|vs| - 1], a) && !KeptAs(vs[|vs| - 1], Dob)
    ensures FillFrom(m, vs).Of(a) == FillFrom(m[..|m| - 1], vs[..|vs| - 1]).Of(a)
  {
    var n := |m| - 1;
    var prev := FillFrom(m[..n], vs[..n]);
    if vs[n].Some? {
      var b := vs[n].value.0;
      var e := [(m[n].0, Scored(m[n].1, vs[n].value.1 as real))];
      assert FillFrom(m, vs) == if b == Name then prev.(name := e) else if b == Grad then prev.(grad := e) else prev.(school := e);
    }
  }

  lemma LastAcceptedSkips(m: TextMapping, vs: seq<Kept>, a: Attr)
    requires |vs| == |m| > 0 && !KeptAs(vs[|vs| - 1], a)
    ensures LastAccepted(m, vs, a) == LastAccepted(m[..|m| - 1], vs[..|vs| - 1], a)
  {
    var n := |m| - 1;
    assert LastIndex(vs, a) == LastIndex(vs[..n], a);
    match LastIndex(vs[..n], a)
    case None =>
    case Some(j) => assert m[..n][j] == m[j] && vs[..n][j] == vs[j];
  }

  /** Classification never yields Dob, so every bucket is the last kept pair
      of its class. */
  lemma FillIsLast(meta: Meta, ner: Recognizer, m: TextMapping)
    ensures Fill(meta, ner, m).name == LastAccepted(m, Verdicts(meta, ner, m), Name)
    ensures Fill(meta, ner, m).grad == LastAccepted(m, Verdicts(meta, ner, m), Grad)
    ensures Fill(meta, ner, m).school == LastAccepted(m, Verdicts(meta, ner, m), School)
  {
    var vs := Verdicts(meta, ner, m);
    FillFromIsLast(m, vs, Name);
    FillFromIsLast(m, vs, Grad);
    FillFromIsLast(m, vs, School);
  }

  /** `__getName__` of this detector: both outputs are always title-cased. A
      labelled first/last pair is read when the scan completes; otherwise
      the best value is parsed with the strict grammar. */
  function GetName(names: Bucket): (r: Result<(string, string)>)
    ensures ((exists i :: 0 <= i < |names| && IsFirstLabel(names[i].0))
          && (exists i :: 0 <= i < |names| && IsLastLabel(names[i].0))) ==>
      LastLabelled(names, StopAt(names), true).Some? && LastLabelled(names, StopAt(names), false).Some?
      && r == Ok((Title(LastLabelled(names, StopAt(names), true).value), Title(LastLabelled(names, StopAt(names), false).value)))
    ensures ((forall i :: 0 <= i < |names| ==> !IsFirstLabel(names[i].0))
          || (forall i :: 0 <= i < |names| ==> !IsLastLabel(names[i].0))) ==>
      r == ParseName(GetMax(names))
    ensures |names| <= 1 ==> r == ParseName(GetMax(names))
  {
    var (first, last) := LabeledScan(names);
    ScanNeedsTwoEntries(names);
    if first.Some? && last.Some? then Ok((Title(first.value), Title(last.value)))
    else ParseName(GetMax(names))
  }

  /** "NA" has no comma, so the sentinel itself is parsed as a one-word name:
      an empty bucket yields ('Na', 'Na'). */
  lemma GetNameEmpty()
    ensures GetName([]) == Ok(("Na", "Na"))
  {
    var w := "NA";
    assert JoinWith([w], " ") == w;
    SplitWsJoin([w]);
    assert ParseName(w) == OuterTokens([w]);
    assert Title(w) == "Na";
  }

  /** `processDate` with `strftime("%Y/%m/%d")`: 'NA' exactly when the parser
      rejects the text, otherwise a date that reads back as the parsed
      year, month and day. */
  function ProcessDate(parse: DateParser, date: string): (r: string)
    ensures r == "NA" <==> parse(date).None?
    ensures parse(date).Some? ==>
      (|SplitOn(r, '/')| == 3
       && AllDigits(SplitOn(r, '/')[0]) && ValueOf(SplitOn(r, '/')[0]) == parse(date).value.year
       && AllDigits(SplitOn(r, '/')[1]) && ValueOf(SplitOn(r, '/')[1]) == parse(date).value.month
       && AllDigits(SplitOn(r, '/')[2]) && ValueOf(SplitOn(r, '/')[2]) == parse(date).value.day)
  {
    match parse(date)
    case None => "NA"
    case Some(dt) =>
      FormatFullRoundTrip(dt);
      var r := FormatFull(dt);
      assert r[|Decimal(dt.year)|] == '/';
      r
  }

  /** `detectEntity`: fill the buckets, then resolve the name from the Name
      bucket, the date from the Grad bucket and the school from the School
      bucket, each being the last pair kept under its class. Only the strict
      name parse can fail. */
  function DetectEntity(meta: Meta, ner: Recognizer, parse: DateParser, m: TextMapping): (r: Result<LegacyForm>)
    ensures var vs := Verdicts(meta, ner, m);
      && (r.Err? <==> ParseName(GetMax(LastAccepted(m, vs, Name))).Err?)
      && (r.Err? ==> r.error == ValueError || r.error == IndexError)
      && (r.Ok? ==> (r.value.first, r.value.last) == ParseName(GetMax(LastAccepted(m, vs, Name))).value)
      && (r.Ok? ==> r.value.grad == ProcessDate(parse, GetMax(LastAccepted(m, vs, Grad))))
      && (r.Ok? ==> r.value.school == GetMax(LastAccepted(m, vs, School)))
  {
    var b := Fill(meta, ner, m);
    FillIsLast(meta, ner, m);
    var name :- GetName(b.name);
    Ok(LegacyForm(name.0, name.1, ProcessDate(parse, GetMax(b.grad)), GetMax(b.school)))
  }

  /** With no kept Name pair the form reads ('Na', 'Na'). */
  lemma DetectEntityNoName(meta: Meta, ner: Recognizer, parse: DateParser, m: TextMapping)
    requires forall j :: 0 <= j < |m| ==> !KeptAs(Accepts(meta, ner, m[j].0, m[j].1), Name)
    ensures DetectEntity(meta, ner, parse, m).Ok?
    ensures DetectEntity(meta, ner, parse, m).value.first == "Na"
    ensures DetectEntity(meta, ner, parse, m).value.last == "Na"
  {
    var vs := Verdicts(meta, ner, m);
    assert |LastAccepted(m, vs, Name)| == 0;
    GetNameEmpty();
  }

  /** The school is 'NA' when no School pair is kept and otherwise the value
      of the last kept one, untransformed. */
  lemma DetectEntitySchool(meta: Meta, ner: Recognizer, parse: DateParser, m: TextMapping)
    requires DetectEntity(meta, ner, parse, m).Ok?
    ensures DetectEntity(meta, ner, parse, m).value.school ==
      match LastIndex(Verdicts(meta, ner, m), School)
      case None => "NA"
      case Some(j) => m[j].1
  {
    var vs := Verdicts(meta, ner, m);
    assert |vs| == |m| && forall j :: 0 <= j < |vs| ==> vs[j] == Accepts(meta, ner, m[j].0, m[j].1);
    LastAcceptedMax(m, vs, School);
  }

  /** The best of a bucket holding only the last kept pair is that pair's
      value, and 'NA' for an empty bucket. */
  lemma LastAcceptedMax(m: TextMapping, vs: seq<Kept>, a: Attr)
    requires |vs| == |m|
    requires forall j :: 0 <= j < |vs| ==> vs[j].Some? ==> vs[j].value.1 >= 2
    ensures GetMax(LastAccepted(m, vs, a)) ==
      match LastIndex(vs, a)
      case None => "NA"
      case Some(j) => m[j].1
  {
    var b := LastAccepted(m, vs, a);
    match LastIndex(vs, a)
    case None =>
      assert b == [];
    case Some(j) =>
      assert b == [(m[j].0, Scored(m[j].1, vs[j].value.1 as real))];
      SingleMax(b);
  }
}
