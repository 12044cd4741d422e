/** Selection over scored candidates: Python's `max(d, key=d.get)`, the
    detectors' `__getMax__`, and the labelled-field scan that opens every
    `__getName__` over key/value candidates.
 */
module Select {
  import opened Wrappers
  import opened Text
  import opened OrderedMap

  /** A bucket entry `{'Value': ..., 'Score': ...}`. */
  datatype Scored = Scored(value: string, score: real)

  /** A per-attribute bucket: key text -> scored value, in insertion order. */
  type Bucket = Dict<string, Scored>

  /** `max(xs, key=...)`: the first position holding the greatest value. */
  function FirstMax(xs: seq<real>): (i: nat)
    requires |xs| > 0
    ensures i < |xs|
    ensures forall j :: 0 <= j < |xs| ==> xs[j] <= xs[i]
    ensures forall j :: 0 <= j < i ==> xs[j] < xs[i]
    decreases |xs|
  {
    if |xs| == 1 then 0
    else
      var n := |xs| - 1;
      var i := FirstMax(xs[..n]);
      if xs[n] > xs[i] then n else i
  }

  /** One more candidate wins only when strictly greater than the best so
      far. */
  lemma FirstMaxAppend(xs: seq<real>, x: real)
    requires |xs| > 0
    ensures FirstMax(xs + [x]) == if x > xs[FirstMax(xs)] then |xs| else FirstMax(xs)
  {
    assert (xs + [x])[..|xs|] == xs;
  }

  /** `__getMax__`'s loop: it starts from score 0 and moves to an entry only
      on a strictly greater score, so it ends on the earliest entry of
      greatest score, or on nothing when no score is positive. */
  function MaxIndex(b: Bucket): (r: Option<nat>)
    ensures r.None? <==> forall j :: 0 <= j < |b| ==> b[j].1.score <= 0.0
    ensures r.Some? ==> r.value < |b| && b[r.value].1.score > 0.0
    ensures r.Some? ==> forall j :: 0 <= j < |b| ==> b[j].1.score <= b[r.value].1.score
    ensures r.Some? ==> forall j :: 0 <= j < r.value ==> b[j].1.score < b[r.value].1.score
    decreases |b|
  {
    if |b| == 0 then None
    else
      var n := |b| - 1;
      match MaxIndex(b[..n])
      case None => if b[n].1.score > 0.0 then Some(n) else None
      case Some(i) => if b[n].1.score > b[i].1.score then Some(n) else Some(i)
  }

  /** `__getMax__`: the value of greatest score, earliest on ties, or 'NA'
      when the bucket is empty or no score is positive. */
  function GetMax(b: Bucket): (r: string)
    ensures (forall j :: 0 <= j < |b| ==> b[j].1.score <= 0.0) ==> r == "NA"
    ensures (exists j :: 0 <= j < |b| && b[j].1.score > 0.0) ==>
      exists i :: 0 <= i < |b| && r == b[i].1.value && b[i].1.score > 0.0
        && (forall j :: 0 <= j < |b| ==> b[j].1.score <= b[i].1.score)
        && (forall j :: 0 <= j < i ==> b[j].1.score < b[i].1.score)
  {
    match MaxIndex(b)
    case None => "NA"
    case Some(i) => b[i].1.value
  }

  /** A one-entry bucket of positive score yields its value. */
  lemma SingleMax(b: Bucket)
    requires |b| == 1 && b[0].1.score > 0.0
    ensures GetMax(b) == b[0].1.value
  {
  }

  /** A key naming the first-name field: `'first' in k.lower()`. */
  predicate IsFirstLabel(k: string) {
    Contains(Lower(k), "first")
  }

  /** A key naming the last-name field; the `elif` makes a key that
      mentions both a first-name key. */
  predicate IsLastLabel(k: string) {
    !Contains(Lower(k), "first") && Contains(Lower(k), "last")
  }

  /** A key labelled for the first-name side (`first`) or the last-name
      side (`!first`). */
  predicate Labelled(k: string, first: bool) {
    if first then IsFirstLabel(k) else IsLastLabel(k)
  }

  /** Reference definition: the value of the last of the first `n` entries
      labelled for a side, or nothing when none of them is. */
  function LastLabelled(b: Bucket, n: nat, first: bool): Option<string>
    requires n <= |b|
    decreases n
  {
    if n == 0 then None
    else if Labelled(b[n - 1].0, first) then Some(b[n - 1].1.value)
    else LastLabelled(b, n - 1, first)
  }

  /** The reference finds nothing exactly when no entry read is labelled
      for the side, and otherwise the value of the last one that is. */
  lemma {:induction false} LastLabelledIs(b: Bucket, n: nat, first: bool)
    requires n <= |b|
    ensures LastLabelled(b, n, first).None? <==> forall j :: 0 <= j < n ==> !Labelled(b[j].0, first)
    ensures LastLabelled(b, n, first).Some? ==> exists j :: (0 <= j < n && Labelled(b[j].0, first)
      && b[j].1.value == LastLabelled(b, n, first).value
      && forall j' :: j < j' < n ==> !Labelled(b[j'].0, first))
    decreases n
  {
    if n > 0 && !Labelled(b[n - 1].0, first) {
      LastLabelledIs(b, n - 1, first);
    }
  }

  /** Both sides are known after reading the first `n` entries. */
  predicate BothSeen(b: Bucket, n: nat)
    requires n <= |b|
  {
    LastLabelled(b, n, true).Some? && LastLabelled(b, n, false).Some?
  }

  /** Reference definition: how many entries the scan reads, the least
      count after which both sides are known, or the whole bucket. */
  function StopAt(b: Bucket): (p: nat)
    ensures p <= |b|
    ensures p == |b| || BothSeen(b, p)
    ensures forall q :: 0 <= q < p ==> !BothSeen(b, q)
  {
    StopFrom(b, 0)
  }

  function StopFrom(b: Bucket, i: nat): (p: nat)
    requires i <= |b|
    requires forall q :: 0 <= q < i ==> !BothSeen(b, q)
    ensures i <= p <= |b|
    ensures p == |b| || BothSeen(b, p)
    ensures forall q :: 0 <= q < p ==> !BothSeen(b, q)
    decreases |b| - i
  {
    if i == |b| || BothSeen(b, i) then i else StopFrom(b, i + 1)
  }

  /** The labelled-field scan of `__getName__`: walk the bucket, remember the
      latest first-name and last-name values, stop as soon as both are
      known. Each side is the value of the last key labelled for it among
      the entries read before the scan stops; a side is found exactly when
      some key of the whole bucket is labelled for it. */
  function LabeledScan(b: Bucket): (r: (Option<string>, Option<string>))
    ensures r == (LastLabelled(b, StopAt(b), true), LastLabelled(b, StopAt(b), false))
    ensures r.0.Some? <==> exists i :: 0 <= i < |b| && IsFirstLabel(b[i].0)
    ensures r.1.Some? <==> exists i :: 0 <= i < |b| && IsLastLabel(b[i].0)
    ensures r.0.Some? ==> exists i :: (0 <= i < StopAt(b) && IsFirstLabel(b[i].0) && b[i].1.value == r.0.value
      && forall j :: i < j < StopAt(b) ==> !IsFirstLabel(b[j].0))
    ensures r.1.Some? ==> exists i :: (0 <= i < StopAt(b) && IsLastLabel(b[i].0) && b[i].1.value == r.1.value
      && forall j :: i < j < StopAt(b) ==> !IsLastLabel(b[j].0))
  {
    StopAtSides(b, true);
    StopAtSides(b, false);
    ScanFrom(b, 0, None, None)
  }

  /** A side is known after the scan stops exactly when some key of the
      whole bucket is labelled for it: the scan stops early only once both
      sides are known. */
  lemma StopAtSides(b: Bucket, first: bool)
    ensures LastLabelled(b, StopAt(b), first).Some? <==> exists i :: 0 <= i < |b| && Labelled(b[i].0, first)
    ensures LastLabelled(b, StopAt(b), first).Some? ==> exists i :: (0 <= i < StopAt(b) && Labelled(b[i].0, first)
      && b[i].1.value == LastLabelled(b, StopAt(b), first).value
      && forall j :: i < j < StopAt(b) ==> !Labelled(b[j].0, first))
  {
    var p := StopAt(b);
    LastLabelledIs(b, p, first);
    if p < |b| {
      assert BothSeen(b, p);
      var j :| 0 <= j < p && Labelled(b[j].0, first);
    }
  }

  function ScanFrom(b: Bucket, i: nat, first: Option<string>, last: Option<string>): (r: (Option<string>, Option<string>))
    requires i <= |b|
    requires first == LastLabelled(b, i, true) && last == LastLabelled(b, i, false)
    requires forall q :: 0 <= q <= i ==> !BothSeen(b, q)
    ensures r == (LastLabelled(b, StopFrom(b, i), true), LastLabelled(b, StopFrom(b, i), false))
    decreases |b| - i
  {
    if i == |b| then (first, last)
    else
      var f := if IsFirstLabel(b[i].0) then Some(b[i].1.value) else first;
      var l := if IsLastLabel(b[i].0) then Some(b[i].1.value) else last;
      assert f == LastLabelled(b, i + 1, true) && l == LastLabelled(b, i + 1, false);
      if f.Some? && l.Some? then (f, l)
      else ScanFrom(b, i + 1, f, l)
  }

  lemma ExampleLabels()
    ensures IsFirstLabel("First") && IsFirstLabel("FIRST") && IsFirstLabel("first")
    ensures !IsLastLabel("First") && !IsLastLabel("FIRST") && !IsLastLabel("first")
    ensures IsLastLabel("Last") && !IsFirstLabel("Last")
  {
    assert Lower("First") == "first" && Lower("FIRST") == "first" && Lower("first") == "first";
    assert Lower("Last") == "last";
    assert "first" <= Lower("First")[0..];
    assert "last" <= Lower("Last")[0..];
  }

  /** The scan keeps the latest value of a label: of two first-name keys
      read before the last-name key, the second one wins. Once both sides
      are known it stops, so a first-name key after that point is never
      read. */
  lemma ScanLatestExample(b: Bucket, c: Bucket)
    requires b == [("First", Scored("Jane", 1.0)), ("FIRST", Scored("Janet", 1.0)), ("Last", Scored("Doe", 1.0))]
    requires c == [("Last", Scored("Doe", 1.0)), ("First", Scored("Jane", 1.0)), ("first", Scored("Janet", 1.0))]
    ensures LabeledScan(b) == (Some("Janet"), Some("Doe"))
    ensures LabeledScan(c) == (Some("Jane"), Some("Doe"))
  {
    ExampleLabels();
    assert !BothSeen(b, 0) && !BothSeen(b, 1) && !BothSeen(b, 2) && BothSeen(b, 3);
    assert StopAt(b) == 3;
    assert !BothSeen(c, 0) && !BothSeen(c, 1) && BothSeen(c, 2);
    assert StopAt(c) == 2;
  }

  /** With one key labelled for each side, the scan returns exactly their
      values. */
  lemma ScanUniqueLabels(b: Bucket, a: nat, c: nat)
    requires a < |b| && c < |b|
    requires IsFirstLabel(b[a].0) && forall j :: 0 <= j < |b| && IsFirstLabel(b[j].0) ==> j == a
    requires IsLastLabel(b[c].0) && forall j :: 0 <= j < |b| && IsLastLabel(b[j].0) ==> j == c
    ensures LabeledScan(b) == (Some(b[a].1.value), Some(b[c].1.value))
  {
  }

  /** A bucket of at most one entry never completes the scan: one key cannot
      be labelled for both sides. */
  lemma ScanNeedsTwoEntries(b: Bucket)
    ensures |b| <= 1 ==> !(LabeledScan(b).0.Some? && LabeledScan(b).1.Some?)
  {
  }
}
