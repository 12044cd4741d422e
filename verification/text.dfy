/** The Python string operations the engine relies on, restricted to ASCII:
    `in` (substring containment), `lower()`, `title()`, `strip(' ')`,
    `split()` (runs of whitespace), `split(sep=',')` and `' '.join(...)`.
 */
module Text {

  /** `str.isspace()` on the ASCII range (space, \t \n \v \f \r and the
      four information separators 0x1C..0x1F). */
  predicate IsSpace(c: char) {
    c == ' ' || ('\t' <= c <= '\r') || ('\U{1C}' <= c <= '\U{1F}')
  }

  predicate IsUpperChar(c: char) { 'A' <= c <= 'Z' }
  predicate IsLowerChar(c: char) { 'a' <= c <= 'z' }
  predicate IsCased(c: char) { IsUpperChar(c) || IsLowerChar(c) }

  function LowerChar(c: char): char {
    if IsUpperChar(c) then (c as int + 32) as char else c
  }

  function UpperChar(c: char): char {
    if IsLowerChar(c) then (c as int - 32) as char else c
  }

  predicate NoSpace(w: string) {
    forall i :: 0 <= i < |w| ==> !IsSpace(w[i])
  }

  /** Python `sub in s`: the empty string is contained in every string. */
  predicate Contains(s: string, sub: string) {
    exists i :: 0 <= i <= |s| - |sub| && sub <= s[i..]
  }

  /** `str.lower()` */
  function Lower(s: string): (r: string)
    ensures |r| == |s|
  {
    seq(|s|, i requires 0 <= i < |s| => LowerChar(s[i]))
  }

  /** `str.title()`: a cased letter is upper-cased when the character before
      it is not cased, and lower-cased when it is. */
  function Title(s: string): (r: string)
    ensures |r| == |s|
  {
    TitleFrom(s, false)
  }

  function TitleFrom(s: string, prevCased: bool): (r: string)
    ensures |r| == |s|
    decreases |s|
  {
    if |s| == 0 then ""
    else
      var c := if prevCased then LowerChar(s[0]) else UpperChar(s[0]);
      [c] + TitleFrom(s[1..], IsCased(s[0]))
  }

  /** Title-casing changes letter case only, and never upper-cases a letter
      that follows a cased character. */
  lemma {:induction false} TitleFromChars(s: string, prevCased: bool)
    ensures forall i :: 0 <= i < |s| ==> LowerChar(TitleFrom(s, prevCased)[i]) == LowerChar(s[i])
    ensures forall i :: 0 < i < |s| && IsCased(s[i - 1]) ==> !IsUpperChar(TitleFrom(s, prevCased)[i])
    ensures |s| > 0 && prevCased ==> !IsUpperChar(TitleFrom(s, prevCased)[0])
    decreases |s|
  {
    if |s| > 0 {
      var r := TitleFrom(s, prevCased);
      TitleFromChars(s[1..], IsCased(s[0]));
      assert forall i :: 0 < i < |s| ==> r[i] == TitleFrom(s[1..], IsCased(s[0]))[i - 1];
    }
  }

  /** Lower-casing forgets title-casing. */
  lemma LowerTitle(s: string)
    ensures Lower(Title(s)) == Lower(s)
  {
    TitleFromChars(s, false);
  }

  /** "NA" is the engine's sentinel for an unresolved field; no title-cased
      text can be mistaken for it, because the 'A' follows a cased 'N'. */
  lemma TitleIsNeverNA(s: string)
    ensures Title(s) != "NA"
  {
    if |s| == 2 {
      var r := Title(s);
      TitleFromChars(s, false);
      if IsCased(s[0]) {
        assert !IsUpperChar(r[1]);
      } else {
        assert LowerChar(r[0]) == LowerChar(s[0]);
        assert r[0] != 'N';
      }
    }
  }

  /** Title-casing keeps every space where it was. */
  lemma TitleKeepsSpaces(s: string)
    ensures forall i :: 0 <= i < |s| ==> (Title(s)[i] == ' ' <==> s[i] == ' ')
  {
    TitleFromChars(s, false);
  }

  /** Leading spaces are uncased, so title-casing passes over them. */
  lemma TitleAfterSpace(w: string)
    ensures Title(" " + w) == " " + Title(w)
  {
    assert (" " + w)[1..] == w;
  }

  /** Title-casing a prefix gives the prefix of the title-cased text. */
  lemma {:induction false} TitlePrefix(s: string, prevCased: bool, k: nat)
    requires k <= |s|
    ensures TitleFrom(s[..k], prevCased) == TitleFrom(s, prevCased)[..k]
    decreases k
  {
    if k > 0 {
      assert s[..k][1..] == s[1..][..k - 1];
      TitlePrefix(s[1..], IsCased(s[0]), k - 1);
    }
  }

  lemma {:induction false} StripLeftTitle(s: string)
    ensures StripLeft(Title(s)) == Title(StripLeft(s))
    decreases |s|
  {
    TitleKeepsSpaces(s);
    if |s| > 0 && s[0] == ' ' {
      assert s == " " + s[1..];
      TitleAfterSpace(s[1..]);
      assert Title(s)[1..] == Title(s[1..]);
      StripLeftTitle(s[1..]);
    }
  }

  lemma {:induction false} StripRightTitle(s: string)
    ensures StripRight(Title(s)) == Title(StripRight(s))
    decreases |s|
  {
    TitleKeepsSpaces(s);
    if |s| > 0 && s[|s| - 1] == ' ' {
      var n := |s| - 1;
      TitlePrefix(s, false, n);
      assert Title(s)[..n] == Title(s[..n]);
      StripRightTitle(s[..n]);
    }
  }

  /** Stripping spaces and title-casing commute: spaces are uncased, so
      they neither change nor affect the case of what follows them. */
  lemma StripTitle(s: string)
    ensures Strip(Title(s)) == Title(Strip(s))
  {
    StripLeftTitle(s);
    StripRightTitle(StripLeft(s));
  }

  /** `str.strip(' ')`: only the space character is removed. */
  function Strip(s: string): (r: string)
    ensures |r| == 0 || (r[0] != ' ' && r[|r| - 1] != ' ')
    ensures |r| <= |s|
  {
    StripRight(StripLeft(s))
  }

  function StripLeft(s: string): (r: string)
    ensures |r| <= |s| && r == s[|s| - |r|..]
    ensures forall i :: 0 <= i < |s| - |r| ==> s[i] == ' '
    ensures |r| > 0 ==> r[0] != ' '
    decreases |s|
  {
    if |s| > 0 && s[0] == ' ' then StripLeft(s[1..]) else s
  }

  function StripRight(s: string): (r: string)
    ensures |r| <= |s| && r == s[..|r|]
    ensures forall i :: |r| <= i < |s| ==> s[i] == ' '
    ensures |r| > 0 ==> r[|r| - 1] != ' '
    decreases |s|
  {
    if |s| > 0 && s[|s| - 1] == ' ' then StripRight(s[..|s| - 1]) else s
  }

  lemma StripUnpadded(s: string)
    requires |s| == 0 || (s[0] != ' ' && s[|s| - 1] != ' ')
    ensures Strip(s) == s
  {
    assert StripLeft(s) == s;
    assert StripRight(s) == s;
  }

  /** Length of the leading run of non-whitespace characters. */
  function WordLen(s: string): (n: nat)
    ensures n <= |s|
    ensures forall i :: 0 <= i < n ==> !IsSpace(s[i])
    ensures n == |s| || IsSpace(s[n])
    decreases |s|
  {
    if |s| == 0 || IsSpace(s[0]) then 0 else 1 + WordLen(s[1..])
  }

  /** `str.split()` without arguments: the maximal runs of non-whitespace,
      in order; no token is empty. */
  function SplitWs(s: string): (r: seq<string>)
    ensures forall k :: 0 <= k < |r| ==> |r[k]| > 0 && NoSpace(r[k])
    decreases |s|
  {
    if |s| == 0 then []
    else if IsSpace(s[0]) then SplitWs(s[1..])
    else
      var n := WordLen(s);
      [s[..n]] + SplitWs(s[n..])
  }

  /** `sep.join(ws)` */
  function JoinWith(ws: seq<string>, sep: string): string
    decreases |ws|
  {
    if |ws| == 0 then ""
    else if |ws| == 1 then ws[0]
    else ws[0] + sep + JoinWith(ws[1..], sep)
  }

  function CountChar(s: string, c: char): (n: nat)
    ensures n == 0 <==> c !in s
    ensures n <= |s|
    decreases |s|
  {
    if |s| == 0 then 0
    else (if s[0] == c then 1 else 0) + CountChar(s[1..], c)
  }

  /** `s.split(sep=c)` for a one-character separator: one more part than
      there are separators, and no part contains the separator. */
  function SplitOn(s: string, c: char): (r: seq<string>)
    ensures |r| == CountChar(s, c) + 1
    ensures forall k :: 0 <= k < |r| ==> c !in r[k]
    decreases |s|
  {
    if |s| == 0 then [""]
    else
      var rest := SplitOn(s[1..], c);
      if s[0] == c then [""] + rest
      else [[s[0]] + rest[0]] + rest[1..]
  }

  // ---------------------------------------------------------------------
  // Round trips and characterisations

  /** Splitting on a separator and joining the parts back gives the text. */
  lemma {:induction false} SplitOnJoin(s: string, c: char)
    ensures JoinWith(SplitOn(s, c), [c]) == s
    decreases |s|
  {
    if |s| > 0 {
      var rest := SplitOn(s[1..], c);
      SplitOnJoin(s[1..], c);
      if s[0] == c {
        if |rest| == 1 {
          assert JoinWith([""] + rest, [c]) == "" + [c] + rest[0];
        } else {
          assert ([""] + rest)[1..] == rest;
        }
      } else {
        var r := [[s[0]] + rest[0]] + rest[1..];
        if |rest| == 1 {
          assert JoinWith(r, [c]) == [s[0]] + rest[0];
        } else {
          assert r[1..] == rest[1..];
          assert JoinWith(rest, [c]) == rest[0] + [c] + JoinWith(rest[1..], [c]);
          assert JoinWith(r, [c]) == [s[0]] + rest[0] + [c] + JoinWith(rest[1..], [c]);
        }
      }
      assert s == [s[0]] + s[1..];
    }
  }

  /** The first part is exactly the text before the first separator. */
  lemma {:induction false} SplitOnFirst(before: string, c: char, after: string)
    requires c !in before
    ensures SplitOn(before + [c] + after, c) == [before] + SplitOn(after, c)
    decreases |before|
  {
    var s := before + [c] + after;
    if |before| == 0 {
      assert s[0] == c && s[1..] == after;
    } else {
      assert s[0] == before[0];
      assert s[1..] == before[1..] + [c] + after;
      SplitOnFirst(before[1..], c, after);
      assert [before[0]] + before[1..] == before;
    }
  }

  lemma {:induction false} SplitOnAbsent(s: string, c: char)
    requires c !in s
    ensures SplitOn(s, c) == [s]
    decreases |s|
  {
    if |s| > 0 {
      assert c !in s[1..];
      SplitOnAbsent(s[1..], c);
      assert [s[0]] + s[1..] == s;
    }
  }

  lemma {:induction false} WordLenOfWord(w: string, t: string)
    requires NoSpace(w)
    requires |t| == 0 || IsSpace(t[0])
    ensures WordLen(w + t) == |w|
    decreases |w|
  {
    if |w| > 0 {
      assert (w + t)[1..] == w[1..] + t;
      WordLenOfWord(w[1..], t);
    } else {
      assert w + t == t;
    }
  }

  lemma SplitWsWordThen(w: string, t: string)
    requires |w| > 0 && NoSpace(w)
    requires |t| == 0 || IsSpace(t[0])
    ensures SplitWs(w + t) == [w] + SplitWs(t)
  {
    WordLenOfWord(w, t);
    assert (w + t)[..|w|] == w;
    assert (w + t)[|w|..] == t;
  }

  lemma SplitWsSpaceThen(t: string)
    ensures SplitWs(" " + t) == SplitWs(t)
  {
    assert (" " + t)[1..] == t;
  }

  /** `' '.join` followed by `split()` gives back the words, provided each
      word is a non-empty run of non-whitespace. */
  lemma {:induction false} SplitWsJoin(ws: seq<string>)
    requires forall k :: 0 <= k < |ws| ==> |ws[k]| > 0 && NoSpace(ws[k])
    ensures SplitWs(JoinWith(ws, " ")) == ws
    decreases |ws|
  {
    if |ws| == 1 {
      SplitWsWordThen(ws[0], "");
      assert ws[0] + "" == ws[0];
    } else if |ws| > 1 {
      var tail := JoinWith(ws[1..], " ");
      assert forall k :: 0 <= k < |ws| - 1 ==> ws[1..][k] == ws[k + 1];
      SplitWsJoin(ws[1..]);
      SplitWsJoinStep(ws[0], tail, ws[1..]);
      assert JoinWith(ws, " ") == ws[0] + " " + tail;
      assert [ws[0]] + ws[1..] == ws;
    }
  }

  lemma SplitWsJoinStep(w: string, tail: string, rest: seq<string>)
    requires |w| > 0 && NoSpace(w)
    requires SplitWs(tail) == rest
    ensures SplitWs(w + " " + tail) == [w] + rest
  {
    SplitWsSpaceThen(tail);
    SplitWsWordThen(w, " " + tail);
    assert w + " " + tail == w + (" " + tail);
  }

  /** Joining words with single spaces introduces no other character. */
  lemma {:induction false} JoinWithout(ws: seq<string>, c: char)
    requires c != ' '
    requires forall k :: 0 <= k < |ws| ==> c !in ws[k]
    ensures c !in JoinWith(ws, " ")
    decreases |ws|
  {
    if |ws| > 1 {
      JoinWithout(ws[1..], c);
    }
  }

  /** Stripping a space-free word padded by one leading space gives the word. */
  lemma StripLeadingSpace(w: string)
    requires |w| > 0 && NoSpace(w)
    ensures Strip(" " + w) == w
  {
    assert StripLeft(" " + w) == StripLeft(w);
    assert StripLeft(w) == w;
    assert StripRight(w) == w;
  }

  /** `split()` yields no token exactly when the text is all whitespace. */
  lemma {:induction false} SplitWsEmptyIff(s: string)
    ensures SplitWs(s) == [] <==> forall i :: 0 <= i < |s| ==> IsSpace(s[i])
    decreases |s|
  {
    if |s| > 0 && IsSpace(s[0]) {
      SplitWsEmptyIff(s[1..]);
      assert forall i :: 1 <= i < |s| ==> s[i] == s[1..][i - 1];
    }
  }
}
