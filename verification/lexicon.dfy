/** The alias configuration (`META`), the named-entity spans the external
    recogniser returns, and the alias-hit counting every scorer shares.
 */
module Lexicon {
  import opened Text

  /** The metadata attributes a key/value pair or a text line can belong to. */
  datatype Attr = Name | Grad | School | Dob

  datatype Aliases = Aliases(alias: seq<string>, antialias: seq<string>)

  /** One section of the configuration: an alias list pair per attribute. */
  datatype SideLexicon = SideLexicon(name: Aliases, grad: Aliases, school: Aliases, dob: Aliases) {
    function Of(a: Attr): Aliases {
      match a
      case Name => name
      case Grad => grad
      case School => school
      case Dob => dob
    }
  }

  /** `META['key']` and `META['value']` are read by the current detectors,
      `META['kv']` by the legacy key/value detector. */
  datatype Meta = Meta(key: SideLexicon, value: SideLexicon, kv: SideLexicon)

  /** A named-entity span with its label (`PERSON`, `DATE`, `ORG`, ...). */
  datatype Span = Span(text: string, kind: string)

  /** The named-entity recogniser: text in, spans out. */
  type Recognizer = string -> seq<Span>

  /** The entity label each attribute is expected to carry. */
  function Translator(a: Attr): string {
    match a
    case Name => "PERSON"
    case School => "ORG"
    case Grad => "DATE"
    case Dob => "DATE"
  }

  /** Number of list entries that occur in `text`; an entry counts once
      however often it occurs, and a repeated entry counts each time. */
  function Hits(aliases: seq<string>, text: string): (n: nat)
    ensures n <= |aliases|
    decreases |aliases|
  {
    if |aliases| == 0 then 0
    else (if Contains(text, aliases[0]) then 1 else 0) + Hits(aliases[1..], text)
  }

  /** The scorers' loop `for a in aliases: if a in text: score += weight`,
      starting from `acc`. */
  function Accumulate(aliases: seq<string>, text: string, weight: int, acc: int): int
    decreases |aliases|
  {
    if |aliases| == 0 then acc
    else Accumulate(aliases[1..], text, weight, if Contains(text, aliases[0]) then acc + weight else acc)
  }

  /** The loop adds `weight` once per hit. */
  lemma {:induction false} AccumulateCountsHits(aliases: seq<string>, text: string, weight: int, acc: int)
    ensures Accumulate(aliases, text, weight, acc) == acc + weight * Hits(aliases, text)
    decreases |aliases|
  {
    if |aliases| > 0 {
      var acc' := if Contains(text, aliases[0]) then acc + weight else acc;
      AccumulateCountsHits(aliases[1..], text, weight, acc');
    }
  }

  /** One more list entry adds one hit exactly when it occurs in the text. */
  lemma {:induction false} HitsAppend(aliases: seq<string>, a: string, text: string)
    ensures Hits(aliases + [a], text) == Hits(aliases, text) + (if Contains(text, a) then 1 else 0)
    decreases |aliases|
  {
    if |aliases| > 0 {
      assert (aliases + [a])[1..] == aliases[1..] + [a];
      HitsAppend(aliases[1..], a, text);
    } else {
      assert (aliases + [a])[1..] == [];
    }
  }

  /** Number of spans whose label (`ent.label_`) is `kind`. */
  function LabelCount(spans: seq<Span>, kind: string): (n: nat)
    ensures n <= |spans|
    ensures n == 0 <==> forall i :: 0 <= i < |spans| ==> spans[i].kind != kind
    decreases |spans|
  {
    if |spans| == 0 then 0
    else (if spans[0].kind == kind then 1 else 0) + LabelCount(spans[1..], kind)
  }

  /** Number of spans labelled `kind` over all lines. */
  function KindCount(ner: Recognizer, lines: seq<string>, kind: string): nat
    decreases |lines|
  {
    if |lines| == 0 then 0
    else KindCount(ner, lines[..|lines| - 1], kind) + LabelCount(ner(lines[|lines| - 1]), kind)
  }
}
