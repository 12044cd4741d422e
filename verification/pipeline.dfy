/** The block-graph transform and two-phase merge of
    `MetadataExtraction/main.py`. OCR output is a list of block records that
    refer to each other by id; phase 1 turns the key/value blocks into a
    key-text -> value-text mapping for the key/value detector, and phase 2,
    run only while some field is still 'NA', hands the text lines near the
    top of the page to the raw-text detector.
 */
module Pipeline {
  import opened Wrappers
  import opened Text
  import opened OrderedMap
  import opened Lexicon
  import opened Dates
  import opened Select
  import KvDetector
  import RawDetector

  /** A `Relationships` entry: its `Type` and the `Ids` it points to. */
  datatype Relationship = Relationship(relType: string, ids: seq<string>)

  /** An OCR block record. `confidence` and `relationships` are the entries
      a block may lack; `top` is its `Geometry.BoundingBox.Top`. */
  datatype Block = Block(
    id: string,
    blockType: string,
    entityTypes: seq<string>,
    confidence: Option<real>,
    text: string,
    selectionStatus: string,
    relationships: Option<seq<Relationship>>,
    top: real)

  /** `token_map`: block id -> block. */
  type BlockMap = Dict<string, Block>

  // ---------------------------------------------------------------------
  // extractIds

  /** Reference definition: the position of the last block carrying `k`. */
  function LastWithId(tokens: seq<Block>, k: string): (r: Option<nat>)
    ensures r.None? <==> forall i :: 0 <= i < |tokens| ==> tokens[i].id != k
    ensures r.Some? ==> r.value < |tokens| && tokens[r.value].id == k
    ensures r.Some? ==> forall j :: r.value < j < |tokens| ==> tokens[j].id != k
    decreases |tokens|
  {
    if |tokens| == 0 then None
    else
      var n := |tokens| - 1;
      if tokens[n].id == k then Some(n)
      else
        assert forall j :: 0 <= j < n ==> tokens[..n][j] == tokens[j];
        LastWithId(tokens[..n], k)
  }

  /** `token_map[token_id] = token` for every block in turn. */
  function IdMap(tokens: seq<Block>): (r: BlockMap)
    ensures DistinctKeys(r)
    decreases |tokens|
  {
    if |tokens| == 0 then []
    else
      var n := |tokens| - 1;
      var prev := IdMap(tokens[..n]);
      PutMaps(prev, tokens[n].id, tokens[n]);
      Put(prev, tokens[n].id, tokens[n])
  }

  /** Reference definition: the last block carrying `k`. */
  function LastBlock(tokens: seq<Block>, k: string): Option<Block> {
    match LastWithId(tokens, k)
    case None => None
    case Some(i) => Some(tokens[i])
  }

  /** Looking an id up in `token_map` finds the last block with that id. */
  lemma {:induction false} IdMapGet(tokens: seq<Block>, k: string)
    ensures Get(IdMap(tokens), k) == LastBlock(tokens, k)
    decreases |tokens|
  {
    if |tokens| > 0 {
      IdMapGet(tokens[..|tokens| - 1], k);
      IdMapGetStep(tokens, k);
    }
  }

  lemma IdMapGetStep(tokens: seq<Block>, k: string)
    requires |tokens| > 0
    requires Get(IdMap(tokens[..|tokens| - 1]), k) == LastBlock(tokens[..|tokens| - 1], k)
    ensures Get(IdMap(tokens), k) == LastBlock(tokens, k)
  {
    var n := |tokens| - 1;
    var prev := IdMap(tokens[..n]);
    assert IdMap(tokens) == Put(prev, tokens[n].id, tokens[n]);
    GetPut(prev, tokens[n].id, tokens[n], k);
    if tokens[n].id != k {
      assert LastWithId(tokens, k) == LastWithId(tokens[..n], k);
      if LastWithId(tokens[..n], k).Some? {
        assert tokens[..n][LastWithId(tokens[..n], k).value] == tokens[LastWithId(tokens[..n], k).value];
      }
    }
  }

  /** Every block id is a key of `token_map`. */
  lemma IdMapHasIds(tokens: seq<Block>, i: nat)
    requires i < |tokens|
    ensures HasKey(IdMap(tokens), tokens[i].id)
  {
    IdMapGet(tokens, tokens[i].id);
  }

  predicate IsKeyBlock(b: Block) {
    b.blockType == "KEY_VALUE_SET" && "KEY" in b.entityTypes
  }

  predicate IsLineBlock(b: Block) {
    b.blockType == "LINE"
  }

  /** Reference definition: the positions of the blocks `keep` accepts, in
      increasing order, each exactly once. */
  function Positions(tokens: seq<Block>, keep: Block -> bool): (idx: seq<nat>)
    ensures |idx| <= |tokens|
    ensures forall i :: 0 <= i < |idx| ==> idx[i] < |tokens| && keep(tokens[idx[i]])
    ensures forall i, j :: 0 <= i < j < |idx| ==> idx[i] < idx[j]
    ensures forall p :: 0 <= p < |tokens| && keep(tokens[p]) ==> p in idx
    decreases |tokens|
  {
    if |tokens| == 0 then []
    else
      var n := |tokens| - 1;
      assert forall j :: 0 <= j < n ==> tokens[..n][j] == tokens[j];
      Positions(tokens[..n], keep) + (if keep(tokens[n]) then [n] else [])
  }

  /** The loop shared by `key_ids` and `line_ids`: the id of every block
      `keep` accepts is appended, in input order. */
  function IdsWhere(tokens: seq<Block>, keep: Block -> bool): (r: seq<string>)
    ensures |r| == |Positions(tokens, keep)|
    ensures forall i :: 0 <= i < |r| ==> r[i] == tokens[Positions(tokens, keep)[i]].id
    decreases |tokens|
  {
    if |tokens| == 0 then []
    else
      var n := |tokens| - 1;
      assert forall j :: 0 <= j < n ==> tokens[..n][j] == tokens[j];
      IdsWhere(tokens[..n], keep) + (if keep(tokens[n]) then [tokens[n].id] else [])
  }

  /** An id is collected exactly when some accepted block carries it. */
  lemma IdsWhereHas(tokens: seq<Block>, keep: Block -> bool, k: string)
    ensures k in IdsWhere(tokens, keep) <==> exists i :: 0 <= i < |tokens| && keep(tokens[i]) && tokens[i].id == k
  {
    var r, idx := IdsWhere(tokens, keep), Positions(tokens, keep);
    if k in r {
      var j :| 0 <= j < |r| && r[j] == k;
      assert keep(tokens[idx[j]]) && tokens[idx[j]].id == k;
    }
    if exists i :: 0 <= i < |tokens| && keep(tokens[i]) && tokens[i].id == k {
      var i :| 0 <= i < |tokens| && keep(tokens[i]) && tokens[i].id == k;
      assert i in idx;
      var j :| 0 <= j < |idx| && idx[j] == i;
      assert r[j] == k;
    }
  }

  /** `key_ids`: the ids of the KEY blocks of the key/value sets, one per
      such block, in input order. */
  function KeyIds(tokens: seq<Block>): (r: seq<string>)
    ensures |r| <= |tokens|
    ensures |r| == |Positions(tokens, IsKeyBlock)|
    ensures forall i :: 0 <= i < |r| ==> r[i] == tokens[Positions(tokens, IsKeyBlock)[i]].id
    ensures forall k :: k in r <==> exists i :: 0 <= i < |tokens| && IsKeyBlock(tokens[i]) && tokens[i].id == k
  {
    assert forall k :: k in IdsWhere(tokens, IsKeyBlock) <==>
        exists i :: 0 <= i < |tokens| && IsKeyBlock(tokens[i]) && tokens[i].id == k by {
      forall k {
        IdsWhereHas(tokens, IsKeyBlock, k);
      }
    }
    IdsWhere(tokens, IsKeyBlock)
  }

  /** Every key id can be looked up in `token_map`. */
  lemma KeyIdsMapped(tokens: seq<Block>, k: string)
    requires k in KeyIds(tokens)
    ensures HasKey(IdMap(tokens), k)
  {
    var i :| 0 <= i < |tokens| && IsKeyBlock(tokens[i]) && tokens[i].id == k;
    IdMapHasIds(tokens, i);
  }

  /** `sum(conf_list)`: the confidences the blocks carry. */
  function ConfSum(tokens: seq<Block>): real
    decreases |tokens|
  {
    if |tokens| == 0 then 0.0
    else
      var n := |tokens| - 1;
      ConfSum(tokens[..n]) + tokens[n].confidence.GetOr(0.0)
  }

  /** `sum(conf_list) / len(tokens)`: blocks without a confidence count in
      the denominator only, and an empty block list divides by zero. */
  function Mean(tokens: seq<Block>): (r: Result<real>)
    ensures r.Err? <==> |tokens| == 0
    ensures r.Err? ==> r.error == ZeroDivisionError
  {
    if |tokens| == 0 then Err(ZeroDivisionError)
    else Ok(ConfSum(tokens) / (|tokens| as real))
  }

  predicate ConfidenceIn(b: Block, lo: real, hi: real) {
    b.confidence.Some? && lo <= b.confidence.value <= hi
  }

  lemma {:induction false} ConfSumBounds(tokens: seq<Block>, lo: real, hi: real)
    requires forall i :: 0 <= i < |tokens| ==> ConfidenceIn(tokens[i], lo, hi)
    ensures lo * (|tokens| as real) <= ConfSum(tokens) <= hi * (|tokens| as real)
    decreases |tokens|
  {
    if |tokens| > 0 {
      var n := |tokens| - 1;
      assert forall j :: 0 <= j < n ==> tokens[..n][j] == tokens[j];
      ConfSumBounds(tokens[..n], lo, hi);
      var k := n as real;
      assert (n + 1) as real == k + 1.0;
      assert ConfSum(tokens) == ConfSum(tokens[..n]) + tokens[n].confidence.value;
      assert lo * (k + 1.0) == lo * k + lo;
      assert hi * (k + 1.0) == hi * k + hi;
    }
  }

  /** When every block carries a confidence in `[lo, hi]`, so does the
      mean. */
  lemma MeanBounds(tokens: seq<Block>, lo: real, hi: real)
    requires |tokens| > 0
    requires forall i :: 0 <= i < |tokens| ==> ConfidenceIn(tokens[i], lo, hi)
    ensures lo <= Mean(tokens).value <= hi
  {
    ConfSumBounds(tokens, lo, hi);
    var n := |tokens| as real;
    var m := ConfSum(tokens) / n;
    assert m * n == ConfSum(tokens);
    if m < lo {
      assert m * n < lo * n;
    }
    if m > hi {
      assert m * n > hi * n;
    }
  }

  /** Two blocks read at 90 and 80 give 85; a block without a confidence
      halves the mean of the one that has one. */
  lemma MeanExamples(a: Block, b: Block, c: Block)
    requires a.confidence == Some(90.0) && b.confidence == Some(80.0) && c.confidence == None
    ensures Mean([a, b]) == Ok(85.0)
    ensures Mean([a, c]) == Ok(45.0)
  {
    assert [a, b][..1] == [a] && [a, c][..1] == [a] && [a][..0] == [];
    assert ConfSum([a]) == 90.0;
    assert ConfSum([a, b]) == 170.0;
    assert ConfSum([a, c]) == 90.0;
  }

  /** `extractIds`: the block map, the key ids and the mean confidence;
      an empty block list raises `ZeroDivisionError` after the loop. */
  function ExtractIds(tokens: seq<Block>): (r: Result<(BlockMap, seq<string>, real)>)
    ensures r.Err? <==> |tokens| == 0
    ensures r.Err? ==> r.error == ZeroDivisionError
    ensures r.Ok? ==> DistinctKeys(r.value.0)
    ensures r.Ok? ==> forall k :: k in r.value.1 ==> HasKey(r.value.0, k)
    ensures r.Ok? ==> r.value.1 == KeyIds(tokens) && Mean(tokens) == Ok(r.value.2)
  {
    var conf :- Mean(tokens);
    forall k | k in KeyIds(tokens)
      ensures HasKey(IdMap(tokens), k)
    {
      KeyIdsMapped(tokens, k);
    }
    Ok((IdMap(tokens), KeyIds(tokens), conf))
  }

  // ---------------------------------------------------------------------
  // getValueIds

  /** Reference definition: the position of the last VALUE relationship. */
  function LastValue(rels: seq<Relationship>): (r: Option<nat>)
    ensures r.None? <==> forall j :: 0 <= j < |rels| ==> rels[j].relType != "VALUE"
    ensures r.Some? ==> r.value < |rels| && rels[r.value].relType == "VALUE"
    ensures r.Some? ==> forall j :: r.value < j < |rels| ==> rels[j].relType != "VALUE"
    decreases |rels|
  {
    if |rels| == 0 then None
    else
      var n := |rels| - 1;
      if rels[n].relType == "VALUE" then Some(n)
      else
        assert forall j :: 0 <= j < n ==> rels[..n][j] == rels[j];
        LastValue(rels[..n])
  }

  /** `getValueIds`: the ids of the last VALUE relationship. A block
      without `Relationships` raises `KeyError`; one without any VALUE
      relationship reads `value_ids` before it is bound. */
  function GetValueIds(b: Block): (r: Result<seq<string>>)
    ensures r == Err(KeyError) <==> b.relationships.None?
    ensures r == Err(UnboundLocalError) <==>
      b.relationships.Some? && forall j :: 0 <= j < |b.relationships.value| ==> b.relationships.value[j].relType != "VALUE"
    ensures r.Err? ==> r.error == KeyError || r.error == UnboundLocalError
    ensures r.Ok? ==> exists i :: (0 <= i < |b.relationships.value| &&
      b.relationships.value[i].relType == "VALUE" && r.value == b.relationships.value[i].ids &&
      forall j :: i < j < |b.relationships.value| ==> b.relationships.value[j].relType != "VALUE")
  {
    match b.relationships
    case None => Err(KeyError)
    case Some(rels) =>
      match LastValue(rels)
      case None => Err(UnboundLocalError)
      case Some(i) => Ok(rels[i].ids)
  }

  // ---------------------------------------------------------------------
  // getText

  /** What one child block contributes: a WORD its text, a selected
      SELECTION_ELEMENT an 'X', anything else nothing. */
  function WordOf(b: Block): (r: Option<string>)
    ensures r.Some? <==> b.blockType == "WORD" || (b.blockType == "SELECTION_ELEMENT" && b.selectionStatus == "SELECTED")
    ensures r.Some? ==> r.value == if b.blockType == "WORD" then b.text else "X"
  {
    if b.blockType == "WORD" then Some(b.text)
    else if b.blockType == "SELECTION_ELEMENT" && b.selectionStatus == "SELECTED" then Some("X")
    else None
  }

  /** The words of the child ids, in order; ids missing from the map are
      skipped. */
  function IdWords(ids: seq<string>, bm: BlockMap): (r: seq<string>)
    ensures |r| <= |ids|
    decreases |ids|
  {
    if |ids| == 0 then []
    else
      var n := |ids| - 1;
      IdWords(ids[..n], bm) +
        match Get(bm, ids[n])
        case None => []
        case Some(b) => match WordOf(b) case None => [] case Some(w) => [w]
  }

  /** The words of every CHILD relationship, in order. */
  function ChildWords(rels: seq<Relationship>, bm: BlockMap): seq<string>
    decreases |rels|
  {
    if |rels| == 0 then []
    else
      var n := |rels| - 1;
      ChildWords(rels[..n], bm) + (if rels[n].relType == "CHILD" then IdWords(rels[n].ids, bm) else [])
  }

  function Words(b: Block, bm: BlockMap): seq<string> {
    match b.relationships
    case None => []
    case Some(rels) => ChildWords(rels, bm)
  }

  /** `getText`: the block's words joined by single spaces. */
  function GetText(b: Block, bm: BlockMap): (r: string)
    ensures b.relationships.None? ==> r == ""
  {
    JoinWith(Words(b, bm), " ")
  }

  /** A child id that is missing, unselected or of another block type adds
      nothing to the text. */
  lemma IdWordsSkips(ids: seq<string>, bm: BlockMap, id: string)
    requires Get(bm, id).None? || WordOf(Get(bm, id).value).None?
    ensures IdWords(ids + [id], bm) == IdWords(ids, bm)
  {
    assert (ids + [id])[..|ids|] == ids;
  }

  function Texts(ws: seq<Block>): seq<string> {
    seq(|ws|, i requires 0 <= i < |ws| => ws[i].text)
  }

  /** When every child id names a WORD block, the words are those blocks'
      texts, in child order. */
  lemma {:induction false} IdWordsOfWords(ids: seq<string>, bm: BlockMap, ws: seq<Block>)
    requires |ws| == |ids|
    requires forall i :: 0 <= i < |ids| ==> Get(bm, ids[i]) == Some(ws[i]) && ws[i].blockType == "WORD"
    ensures IdWords(ids, bm) == Texts(ws)
    decreases |ids|
  {
    if |ids| > 0 {
      var n := |ids| - 1;
      IdWordsOfWords(ids[..n], bm, ws[..n]);
      assert IdWords(ids, bm) == IdWords(ids[..n], bm) + [ws[n].text];
      assert Texts(ws) == Texts(ws[..n]) + [ws[n].text];
    }
  }

  lemma SingleChild(b: Block, bm: BlockMap, ids: seq<string>)
    requires b.relationships == Some([Relationship("CHILD", ids)])
    ensures Words(b, bm) == IdWords(ids, bm)
  {
    var rels := [Relationship("CHILD", ids)];
    assert rels[..0] == [];
    assert ChildWords(rels, bm) == ChildWords([], bm) + IdWords(ids, bm);
  }

  /** `getText` round trip: a line whose one CHILD relationship names WORD
      blocks of non-empty, space-free text splits back into those texts. */
  lemma GetTextSplits(b: Block, bm: BlockMap, ids: seq<string>, ws: seq<Block>)
    requires b.relationships == Some([Relationship("CHILD", ids)])
    requires |ws| == |ids|
    requires forall i :: 0 <= i < |ids| ==> Get(bm, ids[i]) == Some(ws[i]) && ws[i].blockType == "WORD"
    requires forall i :: 0 <= i < |ws| ==> |ws[i].text| > 0 && NoSpace(ws[i].text)
    ensures SplitWs(GetText(b, bm)) == Texts(ws)
  {
    SingleChild(b, bm, ids);
    IdWordsOfWords(ids, bm, ws);
    SplitWsJoin(Texts(ws));
    assert GetText(b, bm) == JoinWith(Texts(ws), " ");
  }

  // ---------------------------------------------------------------------
  // getMapping

  /** The value blocks present in the map, in value-id order. */
  function ValueBlocks(vids: seq<string>, bm: BlockMap): (r: seq<Block>)
    ensures |r| <= |vids|
    decreases |vids|
  {
    if |vids| == 0 then []
    else
      var n := |vids| - 1;
      ValueBlocks(vids[..n], bm) + match Get(bm, vids[n]) case None => [] case Some(v) => [v]
  }

  /** When every value id is present, the value blocks are the blocks of
      the ids, in order. */
  lemma {:induction false} ValueBlocksPresent(vids: seq<string>, bm: BlockMap)
    requires forall i :: 0 <= i < |vids| ==> HasKey(bm, vids[i])
    ensures |ValueBlocks(vids, bm)| == |vids|
    ensures forall i :: 0 <= i < |vids| ==> Get(bm, vids[i]) == Some(ValueBlocks(vids, bm)[i])
    decreases |vids|
  {
    if |vids| > 0 {
      var n := |vids| - 1;
      assert forall j :: 0 <= j < n ==> vids[..n][j] == vids[j];
      ValueBlocksPresent(vids[..n], bm);
    }
  }

  /** A value id missing from the map adds no value text. */
  lemma ValueBlocksSkip(vids: seq<string>, bm: BlockMap, id: string)
    requires !HasKey(bm, id)
    ensures ValueBlocks(vids + [id], bm) == ValueBlocks(vids, bm)
  {
    assert (vids + [id])[..|vids|] == vids;
  }

  /** `getText` of each block. */
  function TextsOf(bs: seq<Block>, bm: BlockMap): seq<string> {
    seq(|bs|, i requires 0 <= i < |bs| => GetText(bs[i], bm))
  }

  /** The mapping entry of one key block: its text, and the joined value
      texts with the key's Top. */
  function Entry(key: Block, bm: BlockMap): (r: Result<(string, KvDetector.Field)>)
    ensures r.Ok? <==> GetValueIds(key).Ok?
    ensures r.Err? ==> r.error == GetValueIds(key).error
    ensures r.Ok? ==> r.value.0 == GetText(key, bm) && r.value.1.top == key.top
  {
    var vids :- GetValueIds(key);
    Ok((GetText(key, bm), KvDetector.Field(JoinWith(TextsOf(ValueBlocks(vids, bm), bm), " "), key.top)))
  }

  /** The key id names a block whose value ids cannot be read. */
  predicate Fails(bm: BlockMap, id: string) {
    Get(bm, id).Some? && GetValueIds(Get(bm, id).value).Err?
  }

  /** `getMapping`: one entry per key text, in key order; key ids missing
      from the map are skipped, and the first key whose value ids cannot be
      read raises. */
  function GetMapping(bm: BlockMap, ids: seq<string>): (r: Result<KvDetector.Mappings>)
    ensures r.Err? <==> exists i :: 0 <= i < |ids| && Fails(bm, ids[i])
    ensures r.Err? ==> r.error == KeyError || r.error == UnboundLocalError
    ensures r.Ok? ==> DistinctKeys(r.value)
    decreases |ids|
  {
    if |ids| == 0 then Ok([])
    else
      var n := |ids| - 1;
      FailsSplit(bm, ids, ids[..n]);
      var prev :- GetMapping(bm, ids[..n]);
      match Get(bm, ids[n])
      case None => Ok(prev)
      case Some(key) =>
        var e :- Entry(key, bm);
        PutMaps(prev, e.0, e.1);
        Ok(Put(prev, e.0, e.1))
  }

  lemma FailsSplit(bm: BlockMap, ids: seq<string>, prefix: seq<string>)
    requires |ids| > 0 && prefix == ids[..|ids| - 1]
    ensures (exists i :: 0 <= i < |ids| && Fails(bm, ids[i])) <==>
      (exists i :: 0 <= i < |prefix| && Fails(bm, prefix[i])) || Fails(bm, ids[|ids| - 1])
  {
    KvDetector.NoneSplit(ids, prefix, (id: string) => Fails(bm, id));
  }

  /** A key id missing from the map adds nothing. */
  lemma MappingSkipsMissing(bm: BlockMap, ids: seq<string>, id: string)
    requires !HasKey(bm, id)
    ensures GetMapping(bm, ids + [id]) == GetMapping(bm, ids)
  {
    assert (ids + [id])[..|ids|] == ids;
  }

  /** The entry of a later key overwrites an earlier entry with the same key
      text, and every other entry is left as it was. */
  lemma MappingPut(bm: BlockMap, ids: seq<string>, id: string, k: string)
    requires GetMapping(bm, ids + [id]).Ok? && HasKey(bm, id)
    ensures GetMapping(bm, ids).Ok? && Entry(Get(bm, id).value, bm).Ok?
    ensures Get(GetMapping(bm, ids + [id]).value, k) ==
      if k == Entry(Get(bm, id).value, bm).value.0 then Some(Entry(Get(bm, id).value, bm).value.1)
      else Get(GetMapping(bm, ids).value, k)
  {
    assert (ids + [id])[..|ids|] == ids;
    var e := Entry(Get(bm, id).value, bm);
    GetPut(GetMapping(bm, ids).value, e.value.0, e.value.1, k);
  }

  // ---------------------------------------------------------------------
  // getRawText and the filter of getRemainder

  /** `line_ids`: the ids of the LINE blocks, one per such block, in input
      order. */
  function LineIds(tokens: seq<Block>): (r: seq<string>)
    ensures |r| == |Positions(tokens, IsLineBlock)|
    ensures forall i :: 0 <= i < |r| ==> r[i] == tokens[Positions(tokens, IsLineBlock)[i]].id
    ensures forall k :: k in r <==> exists i :: 0 <= i < |tokens| && tokens[i].blockType == "LINE" && tokens[i].id == k
  {
    assert forall k :: k in IdsWhere(tokens, IsLineBlock) <==>
        exists i :: 0 <= i < |tokens| && IsLineBlock(tokens[i]) && tokens[i].id == k by {
      forall k {
        IdsWhereHas(tokens, IsLineBlock, k);
      }
    }
    IdsWhere(tokens, IsLineBlock)
  }

  /** `words[text] = y` for every line id in turn; `token_map[line_id]`
      raises `KeyError` for an id missing from the map. */
  function LineTops(bm: BlockMap, ids: seq<string>): (r: Result<Dict<string, real>>)
    ensures r.Err? <==> exists i :: 0 <= i < |ids| && !HasKey(bm, ids[i])
    ensures r.Err? ==> r.error == KeyError
    ensures r.Ok? ==> DistinctKeys(r.value)
    decreases |ids|
  {
    if |ids| == 0 then Ok([])
    else
      var n := |ids| - 1;
      assert forall j :: 0 <= j < n ==> ids[..n][j] == ids[j];
      var prev :- LineTops(bm, ids[..n]);
      match Get(bm, ids[n])
      case None => Err(KeyError)
      case Some(line) =>
        PutMaps(prev, GetText(line, bm), line.top);
        Ok(Put(prev, GetText(line, bm), line.top))
  }

  /** Lines are keyed by their text, so of two lines with the same text the
      later one's Top is kept; other lines are left as they were. */
  lemma LineTopsPut(bm: BlockMap, ids: seq<string>, id: string, t: string)
    requires LineTops(bm, ids + [id]).Ok?
    ensures LineTops(bm, ids).Ok? && HasKey(bm, id)
    ensures Get(LineTops(bm, ids + [id]).value, t) ==
      if t == GetText(Get(bm, id).value, bm) then Some(Get(bm, id).value.top)
      else Get(LineTops(bm, ids).value, t)
  {
    assert (ids + [id])[..|ids|] == ids;
    assert (ids + [id])[|ids|] == id;
    var line := Get(bm, id).value;
    GetPut(LineTops(bm, ids).value, GetText(line, bm), line.top, t);
  }

  /** `getRawText`: the line texts with their Top, and the mean confidence.
      Every line id is in the map, so only the mean can fail. */
  function GetRawText(tokens: seq<Block>): (r: Result<(Dict<string, real>, real)>)
    ensures r.Err? <==> |tokens| == 0
    ensures r.Err? ==> r.error == ZeroDivisionError
    ensures r.Ok? ==> DistinctKeys(r.value.0) && Mean(tokens) == Ok(r.value.1)
    ensures r.Ok? ==> LineTops(IdMap(tokens), LineIds(tokens)) == Ok(r.value.0)
  {
    var bm := IdMap(tokens);
    var ids := LineIds(tokens);
    forall i | 0 <= i < |ids|
      ensures HasKey(bm, ids[i])
    {
      assert ids[i] in ids;
      var j :| 0 <= j < |tokens| && tokens[j].blockType == "LINE" && tokens[j].id == ids[i];
      IdMapHasIds(tokens, j);
    }
    var words := LineTops(bm, ids).value;
    var conf :- Mean(tokens);
    Ok((words, conf))
  }

  /** `thirty_percent`: the line texts whose Top is at most 0.3, in line
      order. */
  function TopLines(words: Dict<string, real>): (r: seq<string>)
    ensures |r| <= |words|
    ensures forall t :: t in r <==> exists i :: 0 <= i < |words| && words[i].0 == t && words[i].1 <= 0.3
    decreases |words|
  {
    if |words| == 0 then []
    else
      var n := |words| - 1;
      assert forall j :: 0 <= j < n ==> words[..n][j] == words[j];
      TopLines(words[..n]) + (if words[n].1 <= 0.3 then [words[n].0] else [])
  }

  /** A line text is passed on exactly when the Top it is recorded with is
      at most 0.3. */
  lemma TopLinesGet(words: Dict<string, real>, t: string)
    requires DistinctKeys(words)
    ensures t in TopLines(words) <==> Get(words, t).Some? && Get(words, t).value <= 0.3
  {
    if t in TopLines(words) {
      var i :| 0 <= i < |words| && words[i].0 == t && words[i].1 <= 0.3;
      assert words[i] == (t, words[i].1);
      GetMaps(words, t, words[i].1);
    }
    if Get(words, t).Some? {
      var i :| 0 <= i < |words| && words[i] == (t, Get(words, t).value);
      assert words[i].0 == t;
    }
  }

  // ---------------------------------------------------------------------
  // The two phases and main

  /** A form value: the text fields, or the numeric Confidence. */
  datatype FormValue = Str(s: string) | Num(x: real)

  type Form = Dict<string, FormValue>

  function Strs(d: Dict<string, string>): Form {
    seq(|d|, i requires 0 <= i < |d| => (d[i].0, Str(d[i].1)))
  }

  /** The text lines `getRemainder` passes to the raw-text detector. */
  function RemainderLines(tokens: seq<Block>): seq<string>
    requires |tokens| > 0
  {
    TopLines(GetRawText(tokens).value.0)
  }

  /** `getRemainder`: the raw-text detector's form over the top lines, with
      the raw blocks' mean confidence added. */
  function GetRemainder(ner: Recognizer, tokens: seq<Block>, nas: seq<string>): (r: Result<Form>)
    ensures |tokens| == 0 ==> r == Err(ZeroDivisionError)
    ensures |tokens| > 0 && "First" !in nas ==> r.Ok?
    ensures r.Err? <==> |tokens| == 0 || ("First" in nas && RawDetector.GetName(ner, RemainderLines(tokens)).Err?)
    ensures r.Err? && |tokens| > 0 ==> r.error == RawDetector.GetName(ner, RemainderLines(tokens)).error
    ensures r.Ok? ==> |tokens| > 0 && DistinctKeys(r.value)
  {
    var raw :- GetRawText(tokens);
    var form :- RawDetector.DetectEntity(ner, nas, TopLines(raw.0));
    assert DistinctKeys(Put(Strs(form), "Confidence", Num(raw.1))) by {
      assert DistinctKeys(Strs(form));
      PutMaps(Strs(form), "Confidence", Num(raw.1));
    }
    Ok(Put(Strs(form), "Confidence", Num(raw.1)))
  }

  /** The phase-2 form holds the Confidence of the raw blocks, and First and
      Last exactly when 'First' was missing; no other key. */
  lemma RemainderGet(ner: Recognizer, tokens: seq<Block>, nas: seq<string>, k: string)
    requires GetRemainder(ner, tokens, nas).Ok?
    ensures |tokens| > 0
    ensures Get(GetRemainder(ner, tokens, nas).value, k) ==
      if k == "Confidence" then Some(Num(Mean(tokens).value))
      else if "First" in nas && k == "First" then Some(Str(RawDetector.GetName(ner, RemainderLines(tokens)).value.0))
      else if "First" in nas && k == "Last" then Some(Str(RawDetector.GetName(ner, RemainderLines(tokens)).value.1))
      else None
  {
    var lines := RemainderLines(tokens);
    var form := RawDetector.DetectEntity(ner, nas, lines).value;
    var d := Strs(form);
    GetPut(d, "Confidence", Num(Mean(tokens).value), k);
    if "First" in nas {
      var name := RawDetector.GetName(ner, lines).value;
      assert d == [("First", Str(name.0)), ("Last", Str(name.1))];
      assert d[..1] == [("First", Str(name.0))];
    } else {
      assert d == [];
    }
  }

  /** `getKeyValues`: the key/value detector's form over the key/value
      mapping, with the blocks' mean confidence added. */
  function GetKeyValues(meta: Meta, ner: Recognizer, parse: DateParser, tokens: seq<Block>): (r: Result<Form>)
    ensures |tokens| == 0 ==> r == Err(ZeroDivisionError)
    ensures r.Err? ==> r.error in {ZeroDivisionError, KeyError, UnboundLocalError, IndexError}
    ensures r.Err? <==> (|tokens| == 0 || GetMapping(IdMap(tokens), KeyIds(tokens)).Err?
      || KvDetector.DetectEntityKV(meta, ner, parse, GetMapping(IdMap(tokens), KeyIds(tokens)).value).Err?)
    ensures r.Ok? ==> Keys(r.value) == ["First", "Last", "Grad", "Confidence"]
    ensures r.Ok? ==> (GetMapping(IdMap(tokens), KeyIds(tokens)).Ok?
      && var kv := KvDetector.DetectEntityKV(meta, ner, parse, GetMapping(IdMap(tokens), KeyIds(tokens)).value);
      && kv.Ok?
      && r.value[0].1 == Str(kv.value.first)
      && r.value[1].1 == Str(kv.value.last)
      && r.value[2].1 == Str(kv.value.grad))
    ensures r.Ok? ==> r.value[3].1 == Num(Mean(tokens).value)
  {
    var ex :- ExtractIds(tokens);
    var mappings :- GetMapping(ex.0, ex.1);
    var kv :- KvDetector.DetectEntityKV(meta, ner, parse, mappings);
    Ok(KvEntries(kv, ex.2))
  }

  /** The detector's three fields followed by 'Confidence'. */
  function KvEntries(kv: KvDetector.KvForm, conf: real): (r: Form)
    ensures Keys(r) == ["First", "Last", "Grad", "Confidence"]
    ensures r[0].1 == Str(kv.first) && r[1].1 == Str(kv.last) && r[2].1 == Str(kv.grad)
    ensures r[3].1 == Num(conf)
  {
    [("First", Str(kv.first)), ("Last", Str(kv.last)), ("Grad", Str(kv.grad)), ("Confidence", Num(conf))]
  }

  /** The form `main` starts from. */
  const Blank: Form := [("First", Str("NA")), ("Last", Str("NA")), ("Grad", Str("NA"))]

  /** `form.update(key_value_dict)` replaces every field of the blank form,
      so the phase-1 form is the key/value detector's form itself. */
  lemma UpdateBlank(kv: Form)
    requires Keys(kv) == ["First", "Last", "Grad", "Confidence"]
    ensures Update(Blank, kv) == kv
  {
    assert |kv| == 4 && kv[0].0 == "First" && kv[1].0 == "Last" && kv[2].0 == "Grad" && kv[3].0 == "Confidence";
    var f1 := Put(Blank, "First", kv[0].1);
    assert Blank[0].0 == "First";
    assert f1 == [kv[0], Blank[1], Blank[2]];
    var f2 := Put(f1, "Last", kv[1].1);
    assert f1[1].0 == "Last";
    assert f2 == [kv[0], kv[1], Blank[2]];
    var f3 := Put(f2, "Grad", kv[2].1);
    assert f2[2].0 == "Grad";
    assert f3 == kv[..3];
    assert !HasKey(f3, "Confidence");
    var f4 := Put(f3, "Confidence", kv[3].1);
    assert f4 == kv;
    var t := kv[1..];
    assert t[0] == kv[1] && t[1..][0] == kv[2] && t[1..][1..][0] == kv[3] && t[1..][1..][1..] == [];
    assert Update(Blank, kv) == Update(f1, t);
    assert Update(f1, t) == Update(f2, t[1..]);
    assert Update(f2, t[1..]) == Update(f3, t[1..][1..]);
    assert Update(f3, t[1..][1..]) == Update(f4, t[1..][1..][1..]);
  }

  /** Phase 1: the blank form updated with the key/value detector's form. */
  function Phase1(meta: Meta, ner: Recognizer, parse: DateParser, tokens: seq<Block>): (r: Result<Form>)
    ensures r.Ok? <==> GetKeyValues(meta, ner, parse, tokens).Ok?
    ensures r.Ok? ==> r.value == GetKeyValues(meta, ner, parse, tokens).value
    ensures r.Ok? ==> DistinctKeys(r.value)
  {
    MergeBlank(GetKeyValues(meta, ner, parse, tokens))
  }

  /** Phase 1 from blocks to fields: it fails exactly on an empty block
      list, a key whose value ids cannot be read, or a name the detector
      cannot parse. Otherwise First and Last are the name resolved from the
      retained Name pairs of the mapping, Grad is the year of the best
      retained Grad pair, and Confidence is the blocks' mean. */
  lemma Phase1Resolves(meta: Meta, ner: Recognizer, parse: DateParser, tokens: seq<Block>)
    ensures Phase1(meta, ner, parse, tokens).Err? <==> (|tokens| == 0 || GetMapping(IdMap(tokens), KeyIds(tokens)).Err?
      || KvDetector.GetName(KvDetector.Retain(meta, ner, GetMapping(IdMap(tokens), KeyIds(tokens)).value, Name)).Err?)
    ensures Phase1(meta, ner, parse, tokens).Ok? ==> (
      var m := GetMapping(IdMap(tokens), KeyIds(tokens)).value;
      var name := KvDetector.GetName(KvDetector.Retain(meta, ner, m, Name));
      var form := Phase1(meta, ner, parse, tokens).value;
      && name.Ok?
      && Get(form, "First") == Some(Str(name.value.0))
      && Get(form, "Last") == Some(Str(name.value.1))
      && Get(form, "Grad") == Some(Str(KvDetector.ProcessDate(parse, GetMax(KvDetector.Retain(meta, ner, m, Grad)))))
      && Get(form, "Confidence") == Some(Num(Mean(tokens).value)))
  {
    var mp := GetMapping(IdMap(tokens), KeyIds(tokens));
    if |tokens| > 0 && mp.Ok? {
      var kv := KvDetector.DetectEntityKV(meta, ner, parse, mp.value);
      if Phase1(meta, ner, parse, tokens).Ok? {
        var form := Phase1(meta, ner, parse, tokens).value;
        assert Keys(form)[0] == "First" && Keys(form)[1] == "Last" && Keys(form)[2] == "Grad" && Keys(form)[3] == "Confidence";
        GetMaps(form, "First", form[0].1);
        GetMaps(form, "Last", form[1].1);
        GetMaps(form, "Grad", form[2].1);
        GetMaps(form, "Confidence", form[3].1);
      }
    }
  }

  /** `form.update(key_value_dict)` on the blank form, or the exception of
      `getKeyValues`. */
  function MergeBlank(kv: Result<Form>): (r: Result<Form>)
    requires kv.Ok? ==> Keys(kv.value) == ["First", "Last", "Grad", "Confidence"]
    ensures r.Ok? <==> kv.Ok?
    ensures r.Ok? ==> r.value == kv.value && DistinctKeys(r.value)
  {
    var f :- kv;
    UpdateBlank(f);
    assert DistinctKeys(f) by {
      assert forall i :: 0 <= i < 4 ==> f[i].0 == Keys(f)[i];
    }
    Ok(Update(Blank, f))
  }

  /** `'NA' in form.values()` */
  predicate HasNA(form: Form) {
    exists i :: 0 <= i < |form| && form[i].1 == Str("NA")
  }

  /** `nas`: the keys whose value is 'NA', in form order. */
  function NaKeys(form: Form): (r: seq<string>)
    ensures forall k :: k in r <==> exists i :: 0 <= i < |form| && form[i] == (k, Str("NA"))
    decreases |form|
  {
    if |form| == 0 then []
    else
      var n := |form| - 1;
      assert forall j :: 0 <= j < n ==> form[..n][j] == form[j];
      NaKeys(form[..n]) + (if form[n].1 == Str("NA") then [form[n].0] else [])
  }

  /** `nas` lists exactly the keys that read 'NA', and is non-empty exactly
      when some value is 'NA'. */
  lemma NaKeysExact(form: Form, k: string)
    requires DistinctKeys(form)
    ensures k in NaKeys(form) <==> Get(form, k) == Some(Str("NA"))
    ensures |NaKeys(form)| > 0 <==> HasNA(form)
  {
    if k in NaKeys(form) {
      var i :| 0 <= i < |form| && form[i] == (k, Str("NA"));
      GetMaps(form, k, Str("NA"));
    }
    if HasNA(form) {
      var i :| 0 <= i < |form| && form[i].1 == Str("NA");
      assert form[i] == (form[i].0, Str("NA"));
      assert form[i].0 in NaKeys(form);
    }
    if |NaKeys(form)| > 0 {
      assert NaKeys(form)[0] in NaKeys(form);
    }
  }

  /** `main`: phase 1 over the key/value blocks; phase 2 over the raw blocks
      only while some field is still 'NA', its form merged over the phase-1
      form. */
  function Main(meta: Meta, ner: Recognizer, parse: DateParser, kvTokens: seq<Block>, rawTokens: seq<Block>): (r: Result<Form>)
    ensures |kvTokens| == 0 ==> r == Err(ZeroDivisionError)
    ensures Phase1(meta, ner, parse, kvTokens).Err? ==> r == Phase1(meta, ner, parse, kvTokens)
    ensures Phase1(meta, ner, parse, kvTokens).Ok? && !HasNA(Phase1(meta, ner, parse, kvTokens).value) ==>
      r == Phase1(meta, ner, parse, kvTokens)
    ensures Phase1(meta, ner, parse, kvTokens).Ok? && HasNA(Phase1(meta, ner, parse, kvTokens).value) ==>
      (r.Err? <==> GetRemainder(ner, rawTokens, NaKeys(Phase1(meta, ner, parse, kvTokens).value)).Err?)
    ensures Phase1(meta, ner, parse, kvTokens).Ok? && HasNA(Phase1(meta, ner, parse, kvTokens).value) && r.Err? ==>
      r == GetRemainder(ner, rawTokens, NaKeys(Phase1(meta, ner, parse, kvTokens).value))
    ensures r.Ok? ==> DistinctKeys(r.value)
  {
    var form :- Phase1(meta, ner, parse, kvTokens);
    if HasNA(form) then
      var rem :- GetRemainder(ner, rawTokens, NaKeys(form));
      UpdateGet(form, rem, "");
      Ok(Update(form, rem))
    else Ok(form)
  }

  /** When phase 2 runs, a key reads its phase-2 value if phase 2 wrote it,
      and its phase-1 value otherwise. */
  lemma MainGet(meta: Meta, ner: Recognizer, parse: DateParser, kvTokens: seq<Block>, rawTokens: seq<Block>, k: string)
    requires Main(meta, ner, parse, kvTokens, rawTokens).Ok?
    requires Phase1(meta, ner, parse, kvTokens).Ok? && HasNA(Phase1(meta, ner, parse, kvTokens).value)
    ensures GetRemainder(ner, rawTokens, NaKeys(Phase1(meta, ner, parse, kvTokens).value)).Ok?
    ensures Get(Main(meta, ner, parse, kvTokens, rawTokens).value, k) ==
      var rem := GetRemainder(ner, rawTokens, NaKeys(Phase1(meta, ner, parse, kvTokens).value)).value;
      if HasKey(rem, k) then Get(rem, k) else Get(Phase1(meta, ner, parse, kvTokens).value, k)
  {
    var form := Phase1(meta, ner, parse, kvTokens).value;
    var rem := GetRemainder(ner, rawTokens, NaKeys(form)).value;
    UpdateGet(form, rem, k);
  }

  /** Phase 2 never alters the graduation year. */
  lemma MainKeepsGrad(meta: Meta, ner: Recognizer, parse: DateParser, kvTokens: seq<Block>, rawTokens: seq<Block>)
    requires Main(meta, ner, parse, kvTokens, rawTokens).Ok?
    ensures Phase1(meta, ner, parse, kvTokens).Ok?
    ensures Get(Main(meta, ner, parse, kvTokens, rawTokens).value, "Grad") == Get(Phase1(meta, ner, parse, kvTokens).value, "Grad")
  {
    var form := Phase1(meta, ner, parse, kvTokens).value;
    if HasNA(form) {
      MainGet(meta, ner, parse, kvTokens, rawTokens, "Grad");
      RemainderGet(ner, rawTokens, NaKeys(form), "Grad");
    }
  }

  /** When the first name is still 'NA' after phase 1, phase 2 writes both
      First and Last, overwriting a last name phase 1 had already found, and
      the raw blocks' confidence replaces that of the key/value blocks. */
  lemma MainOverwritesName(meta: Meta, ner: Recognizer, parse: DateParser, kvTokens: seq<Block>, rawTokens: seq<Block>)
    requires Main(meta, ner, parse, kvTokens, rawTokens).Ok?
    requires Phase1(meta, ner, parse, kvTokens).Ok?
    requires Get(Phase1(meta, ner, parse, kvTokens).value, "First") == Some(Str("NA"))
    ensures |rawTokens| > 0
    ensures RawDetector.GetName(ner, RemainderLines(rawTokens)).Ok?
    ensures Get(Main(meta, ner, parse, kvTokens, rawTokens).value, "First") ==
      Some(Str(RawDetector.GetName(ner, RemainderLines(rawTokens)).value.0))
    ensures Get(Main(meta, ner, parse, kvTokens, rawTokens).value, "Last") ==
      Some(Str(RawDetector.GetName(ner, RemainderLines(rawTokens)).value.1))
    ensures Get(Main(meta, ner, parse, kvTokens, rawTokens).value, "Confidence") == Some(Num(Mean(rawTokens).value))
  {
    var form := Phase1(meta, ner, parse, kvTokens).value;
    NaKeysExact(form, "First");
    var nas := NaKeys(form);
    assert HasNA(form);
    var rem := GetRemainder(ner, rawTokens, nas);
    MainGet(meta, ner, parse, kvTokens, rawTokens, "First");
    MainGet(meta, ner, parse, kvTokens, rawTokens, "Last");
    MainGet(meta, ner, parse, kvTokens, rawTokens, "Confidence");
    RemainderGet(ner, rawTokens, nas, "First");
    RemainderGet(ner, rawTokens, nas, "Last");
    RemainderGet(ner, rawTokens, nas, "Confidence");
  }
}
