/** The string operations the insights and the answer chain rely on:
    `str.split()` with no separator, `str.lower()` and `str.isalpha()` over
    ASCII letters, and `sep.join(parts)`. */
module Text {

  /** The characters `str.split()` treats as whitespace. */
  predicate IsSpace(c: char)
  {
    || ('\t' <= c <= '\r')
    || ('\U{1C}' <= c <= '\U{1F}')
    || c == ' ' || c == '\U{85}' || c == '\U{A0}' || c == '\U{1680}'
    || ('\U{2000}' <= c <= '\U{200A}')
    || c == '\U{2028}' || c == '\U{2029}' || c == '\U{202F}' || c == '\U{205F}' || c == '\U{3000}'
  }

  /** The longest prefix of `s` without whitespace. */
  function TakeWord(s: string): (w: string)
    ensures |w| <= |s| && w == s[..|w|]
    ensures forall c | c in w :: !IsSpace(c)
    ensures |w| == |s| || IsSpace(s[|w|])
    ensures s != [] && !IsSpace(s[0]) ==> |w| > 0
  {
    if s == [] || IsSpace(s[0]) then [] else [s[0]] + TakeWord(s[1..])
  }

  /** `s.split()`: the maximal runs of non-whitespace characters, in order. */
  function Split(s: string): (words: seq<string>)
    ensures forall w | w in words :: |w| > 0
    decreases |s|
  {
    if s == [] then []
    else if IsSpace(s[0]) then Split(s[1..])
    else
      var w := TakeWord(s);
      [w] + Split(s[|w|..])
  }

  /** Every character of a token of `s.split()` is a non-whitespace
      character of `s`. */
  lemma {:induction false} SplitTokenChars(s: string)
    ensures forall w | w in Split(s) :: forall c | c in w :: !IsSpace(c) && c in s
    decreases |s|
  {
    if s == [] {
    } else if IsSpace(s[0]) {
      SplitTokenChars(s[1..]);
      assert forall c | c in s[1..] :: c in s;
    } else {
      var w := TakeWord(s);
      SplitTokenChars(s[|w|..]);
      assert forall c | c in s[|w|..] :: c in s;
      assert forall c | c in w :: c in s;
    }
  }

  /** Where each token of `Split(s)` begins in `s`. */
  function TokenStarts(s: string): (starts: seq<nat>)
    ensures |starts| == |Split(s)|
    decreases |s|
  {
    if s == [] then []
    else if IsSpace(s[0]) then Shifted(TokenStarts(s[1..]), 1)
    else
      var w := TakeWord(s);
      [0] + Shifted(TokenStarts(s[|w|..]), |w|)
  }

  /** Every position moved `d` to the right. */
  function Shifted(ps: seq<nat>, d: nat): (r: seq<nat>)
    ensures |r| == |ps| && forall k | 0 <= k < |ps| :: r[k] == ps[k] + d
  {
    if ps == [] then [] else [ps[0] + d] + Shifted(ps[1..], d)
  }

  /** `ws` and `ps` lay out the tokens of `s`: token `k` is `ws[k]` at
      `ps[k]` (`InPlace`), neighbouring tokens come in text order with a gap
      between them (`InOrder`), and every non-whitespace character of `s`
      lies inside some token (`Covering`). */
  predicate Layout(s: string, ws: seq<string>, ps: seq<nat>)
  {
    |ws| == |ps| && InPlace(s, ws, ps) && InOrder(ws, ps) && Covering(s, ws, ps)
  }

  /** `w` sits verbatim in `s` at `p`; it is non-empty and holds no
      whitespace; it begins the text or follows whitespace, and it ends the
      text or is followed by whitespace. So `w` is a maximal run of
      non-whitespace characters of `s`. */
  predicate TokenAt(s: string, w: string, p: nat)
  {
    && Occurs(s, w, p)
    && 0 < |w|
    && !IsSpace(s[p])
    && NoSpace(w)
    && SpaceBefore(s, p)
    && SpaceAfter(s, p + |w|)
  }

  /** `w` holds no whitespace character. */
  predicate NoSpace(w: string)
  {
    forall c | c in w :: !IsSpace(c)
  }

  predicate InPlace(s: string, ws: seq<string>, ps: seq<nat>)
    requires |ws| == |ps|
  {
    forall k | 0 <= k < |ws| :: TokenAt(s, ws[k], ps[k])
  }

  predicate InOrder(ws: seq<string>, ps: seq<nat>)
    requires |ws| == |ps|
  {
    forall k | 0 <= k < |ws| - 1 :: ps[k] + |ws[k]| < ps[k + 1]
  }

  predicate Covering(s: string, ws: seq<string>, ps: seq<nat>)
    requires |ws| == |ps|
  {
    forall i {:trigger Inside(ws, ps, i)} | 0 <= i < |s| && !IsSpace(s[i]) :: Inside(ws, ps, i)
  }

  /** Position `i` lies inside one of the tokens. */
  predicate Inside(ws: seq<string>, ps: seq<nat>, i: nat)
    requires |ws| == |ps|
  {
    exists k | 0 <= k < |ws| :: ps[k] <= i < ps[k] + |ws[k]|
  }

  /** Position `p` of `s` is its start or follows whitespace. */
  predicate SpaceBefore(s: string, p: nat)
  {
    p == 0 || (p <= |s| && IsSpace(s[p - 1]))
  }

  /** Position `e` of `s` is its end or holds whitespace. */
  predicate SpaceAfter(s: string, e: nat)
  {
    e == |s| || (e < |s| && IsSpace(s[e]))
  }

  /** The layout of `s.split()`: `Split(s)` and `TokenStarts(s)` lay out the
      tokens of `s`, so the tokens are exactly the maximal runs of
      non-whitespace characters, in text order. */
  lemma {:induction false} SplitLayout(s: string)
    ensures Layout(s, Split(s), TokenStarts(s))
    decreases |s|
  {
    if s == [] {
    } else if IsSpace(s[0]) {
      SplitSpaceStep(s);
      SplitLayout(s[1..]);
      LayoutPastSpace(s, Split(s[1..]), TokenStarts(s[1..]));
    } else {
      SplitWordStep(s);
      var w := TakeWord(s);
      forall i | 0 <= i < |w|
        ensures !IsSpace(s[i])
      {
        assert w[i] in w;
      }
      SplitLayout(s[|w|..]);
      LayoutPastWord(s, |w|, Split(s[|w|..]), TokenStarts(s[|w|..]));
    }
  }

  /** One step of `Split` and `TokenStarts` past leading whitespace. */
  lemma SplitSpaceStep(s: string)
    requires s != [] && IsSpace(s[0])
    ensures Split(s) == Split(s[1..])
    ensures TokenStarts(s) == Shifted(TokenStarts(s[1..]), 1)
  {
  }

  /** One step of `Split` and `TokenStarts` past a leading word. */
  lemma SplitWordStep(s: string)
    requires s != [] && !IsSpace(s[0])
    ensures 0 < |TakeWord(s)| <= |s|
    ensures |TakeWord(s)| < |s| ==> IsSpace(s[|TakeWord(s)|])
    ensures Split(s) == [TakeWord(s)] + Split(s[|TakeWord(s)|..])
    ensures TokenStarts(s) == [0] + Shifted(TokenStarts(s[|TakeWord(s)|..]), |TakeWord(s)|)
  {
  }

  /** A layout of the text after leading whitespace, moved one position,
      lays out the whole text. */
  lemma LayoutPastSpace(s: string, ws: seq<string>, ps: seq<nat>)
    requires s != [] && IsSpace(s[0]) && Layout(s[1..], ws, ps)
    ensures Layout(s, ws, Shifted(ps, 1))
  {
    var qs := Shifted(ps, 1);
    forall k | 0 <= k < |ws|
      ensures TokenAt(s, ws[k], qs[k])
    {
      TokenAtInSuffix(s, 1, ws[k], ps[k]);
    }
    CoveringPastSpace(s, ws, ps);
  }

  lemma CoveringPastSpace(s: string, ws: seq<string>, ps: seq<nat>)
    requires s != [] && IsSpace(s[0]) && |ws| == |ps| && Covering(s[1..], ws, ps)
    ensures Covering(s, ws, Shifted(ps, 1))
  {
    var qs := Shifted(ps, 1);
    forall i | 0 <= i < |s| && !IsSpace(s[i])
      ensures Inside(ws, qs, i)
    {
      assert s[1..][i - 1] == s[i];
      assert Inside(ws, ps, i - 1);
      var k :| 0 <= k < |ws| && ps[k] <= i - 1 < ps[k] + |ws[k]|;
      assert qs[k] == ps[k] + 1;
    }
  }

  /** A leading word of length `d` followed by a layout of the rest of the
      text, moved by `d`, lays out the whole text. */
  lemma LayoutPastWord(s: string, d: nat, ws: seq<string>, ps: seq<nat>)
    requires 0 < d <= |s| && forall i | 0 <= i < d :: !IsSpace(s[i])
    requires d == |s| || IsSpace(s[d])
    requires Layout(s[d..], ws, ps)
    ensures Layout(s, [s[..d]] + ws, [0] + Shifted(ps, d))
  {
    InPlacePastWord(s, d, ws, ps);
    InOrderPastWord(s, d, ws, ps);
    CoveringPastWord(s, d, ws, ps);
  }

  lemma InPlacePastWord(s: string, d: nat, ws: seq<string>, ps: seq<nat>)
    requires 0 < d <= |s| && forall i | 0 <= i < d :: !IsSpace(s[i])
    requires d == |s| || IsSpace(s[d])
    requires |ws| == |ps| && InPlace(s[d..], ws, ps)
    ensures InPlace(s, [s[..d]] + ws, [0] + Shifted(ps, d))
  {
    var ws2 := [s[..d]] + ws;
    var qs := [0] + Shifted(ps, d);
    LeadingToken(s, d);
    forall k | 0 < k < |ws2|
      ensures TokenAt(s, ws2[k], qs[k])
    {
      LaterTokenPastWord(s, d, ws, ps, k);
    }
  }

  lemma LaterTokenPastWord(s: string, d: nat, ws: seq<string>, ps: seq<nat>, k: nat)
    requires 0 < d <= |s| && (d == |s| || IsSpace(s[d]))
    requires |ws| == |ps| && 0 < k <= |ws| && TokenAt(s[d..], ws[k - 1], ps[k - 1])
    ensures TokenAt(s, ([s[..d]] + ws)[k], ([0] + Shifted(ps, d))[k])
  {
    assert s[d..][0] == s[d];
    TokenAtInSuffix(s, d, ws[k - 1], ps[k - 1]);
  }

  /** A leading run of `d` non-whitespace characters that ends the text or
      is followed by whitespace is a token at 0. */
  lemma LeadingToken(s: string, d: nat)
    requires 0 < d <= |s| && forall i | 0 <= i < d :: !IsSpace(s[i])
    requires d == |s| || IsSpace(s[d])
    ensures TokenAt(s, s[..d], 0)
  {
    assert s[0..d] == s[..d];
    forall c | c in s[..d] ensures !IsSpace(c) {
      var i :| 0 <= i < d && s[..d][i] == c;
    }
  }

  lemma InOrderPastWord(s: string, d: nat, ws: seq<string>, ps: seq<nat>)
    requires 0 < d <= |s| && (d == |s| || IsSpace(s[d]))
    requires |ws| == |ps| && InPlace(s[d..], ws, ps) && InOrder(ws, ps)
    ensures InOrder([s[..d]] + ws, [0] + Shifted(ps, d))
  {
    if ws != [] {
      AfterSpaceStartsLater(s, d, ws[0], ps[0]);
    }
  }

  /** A token of the text after whitespace at `d` does not start at 0. */
  lemma AfterSpaceStartsLater(s: string, d: nat, w: string, p: nat)
    requires d < |s| && IsSpace(s[d]) && TokenAt(s[d..], w, p)
    ensures p > 0
  {
    assert s[d..][0] == s[d];
  }

  lemma CoveringPastWord(s: string, d: nat, ws: seq<string>, ps: seq<nat>)
    requires 0 < d <= |s| && |ws| == |ps| && Covering(s[d..], ws, ps)
    ensures Covering(s, [s[..d]] + ws, [0] + Shifted(ps, d))
  {
    var ws2 := [s[..d]] + ws;
    var qs := [0] + Shifted(ps, d);
    forall i | 0 <= i < |s| && !IsSpace(s[i])
      ensures Inside(ws2, qs, i)
    {
      if i < d {
        assert qs[0] <= i < qs[0] + |ws2[0]|;
      } else {
        assert s[d..][i - d] == s[i];
        assert Inside(ws, ps, i - d);
        var k :| 0 <= k < |ws| && ps[k] <= i - d < ps[k] + |ws[k]|;
        assert ws2[k + 1] == ws[k] && qs[k + 1] == ps[k] + d;
      }
    }
  }

  /** A token of the text after position `d` is a token of the whole text,
      `d` positions later, when it does not start right after a
      non-whitespace character. */
  lemma TokenAtInSuffix(s: string, d: nat, w: string, p: nat)
    requires d <= |s| && TokenAt(s[d..], w, p)
    requires p > 0 || (d > 0 && IsSpace(s[d - 1]))
    ensures TokenAt(s, w, p + d)
  {
    OccursInSuffix(s, d, w, p);
    assert s[d..][p] == s[p + d];
    SpaceBeforeInSuffix(s, d, p);
    SpaceAfterInSuffix(s, d, p + |w|);
  }

  lemma SpaceBeforeInSuffix(s: string, d: nat, p: nat)
    requires d <= |s| && SpaceBefore(s[d..], p)
    requires p > 0 || (d > 0 && IsSpace(s[d - 1]))
    ensures SpaceBefore(s, p + d)
  {
    if p > 0 {
      assert s[d..][p - 1] == s[p + d - 1];
    }
  }

  lemma SpaceAfterInSuffix(s: string, d: nat, e: nat)
    requires d <= |s| && SpaceAfter(s[d..], e)
    ensures SpaceAfter(s, e + d)
  {
    if e < |s| - d {
      assert s[d..][e] == s[e + d];
    }
  }

  /** An independent count of the words of `s`: the positions holding a
      non-whitespace character that begins the text or follows whitespace.
      `afterSpace` says whether the character before `s` was whitespace. */
  function WordStarts(s: string, afterSpace: bool): nat
  {
    if s == [] then 0
    else (if afterSpace && !IsSpace(s[0]) then 1 else 0) + WordStarts(s[1..], IsSpace(s[0]))
  }

  lemma {:induction false} WordStartsSkipWord(s: string)
    ensures WordStarts(s, false) == WordStarts(s[|TakeWord(s)|..], false)
    decreases |s|
  {
    var w := TakeWord(s);
    if w != [] {
      assert TakeWord(s[1..]) == w[1..];
      assert s[1..][|w| - 1..] == s[|w|..];
      WordStartsSkipWord(s[1..]);
    }
  }

  /** `len(s.split())` is the number of word starts in `s`. */
  lemma {:induction false} SplitCountsWordStarts(s: string)
    ensures |Split(s)| == WordStarts(s, true)
    decreases |s|
  {
    if s != [] {
      if IsSpace(s[0]) {
        SplitCountsWordStarts(s[1..]);
      } else {
        var w := TakeWord(s);
        var rest := s[|w|..];
        assert TakeWord(s[1..]) == w[1..];
        assert s[1..][|w| - 1..] == rest;
        WordStartsSkipWord(s[1..]);
        assert WordStarts(rest, false) == WordStarts(rest, true);
        SplitCountsWordStarts(rest);
      }
    }
  }

  predicate IsAsciiUpper(c: char) { 'A' <= c <= 'Z' }

  predicate IsAsciiLower(c: char) { 'a' <= c <= 'z' }

  function LowerChar(c: char): char
  {
    if IsAsciiUpper(c) then (c as int + 32) as char else c
  }

  /** `s.lower()` on ASCII letters: same length, no upper-case letter left,
      every letter still a letter, every upper-case letter replaced by its
      lower-case form ('A' by 'a', and so on), and every other character
      unchanged. */
  function Lower(s: string): (l: string)
    ensures |l| == |s|
    ensures forall i | 0 <= i < |s| :: !IsAsciiUpper(l[i])
    ensures forall i | 0 <= i < |s| :: (IsAsciiUpper(s[i]) || IsAsciiLower(s[i])) <==> IsAsciiLower(l[i])
    ensures forall i | 0 <= i < |s| :: !IsAsciiUpper(s[i]) ==> l[i] == s[i]
    ensures forall i | 0 <= i < |s| :: IsAsciiUpper(s[i]) ==> l[i] as int == s[i] as int + 32
  {
    seq(|s|, i requires 0 <= i < |s| => LowerChar(s[i]))
  }

  /** A lower-cased text holds no upper-case letter, and lower-casing it
      again changes nothing. */
  lemma LowerHasNoUpper(s: string)
    ensures forall c | c in Lower(s) :: !IsAsciiUpper(c)
    ensures Lower(Lower(s)) == Lower(s)
  {
    var l := Lower(s);
    forall c | c in l ensures !IsAsciiUpper(c) {
      var i :| 0 <= i < |l| && l[i] == c;
      assert c == LowerChar(s[i]);
    }
    forall i | 0 <= i < |l| ensures Lower(l)[i] == l[i] {
      assert !IsAsciiUpper(l[i]);
    }
  }

  /** `w.isalpha()`: non-empty and made of letters only. */
  predicate IsAlpha(w: string)
  {
    |w| > 0 && forall c | c in w :: IsAsciiUpper(c) || IsAsciiLower(c)
  }

  /** A word is alphabetic exactly when its lower-cased form is non-empty
      and made of lower-case letters only, so testing `isalpha()` before or
      after `lower()` agrees. */
  lemma IsAlphaLower(w: string)
    ensures IsAlpha(w) <==> |Lower(w)| > 0 && forall c | c in Lower(w) :: IsAsciiLower(c)
  {
    var l := Lower(w);
    if forall c | c in l :: IsAsciiLower(c) {
      forall c | c in w ensures IsAsciiUpper(c) || IsAsciiLower(c) {
        var i :| 0 <= i < |w| && w[i] == c;
        assert l[i] in l;
      }
    }
    if IsAlpha(w) {
      forall c | c in l ensures IsAsciiLower(c) {
        var i :| 0 <= i < |l| && l[i] == c;
        assert w[i] in w;
      }
    }
  }

  /** `sep.join(parts)`: nothing for no parts, and otherwise as long as the
      parts together plus one separator per gap. */
  function Join(sep: string, parts: seq<string>): (j: string)
    ensures |parts| == 0 ==> j == ""
    ensures |parts| > 0 ==> |j| == TotalLength(parts) + (|parts| - 1) * |sep|
  {
    if |parts| == 0 then ""
    else if |parts| == 1 then (assert parts[1..] == []; parts[0])
    else
      assert (|parts| - 1) * |sep| == |sep| + (|parts| - 2) * |sep|;
      parts[0] + sep + Join(sep, parts[1..])
  }

  /** Sum of the lengths of `parts`. */
  function TotalLength(parts: seq<string>): nat
  {
    if parts == [] then 0 else |parts[0]| + TotalLength(parts[1..])
  }

  /** `sub` sits in `s` starting at index `at`. */
  predicate Occurs(s: string, sub: string, at: nat)
  {
    at + |sub| <= |s| && s[at..at + |sub|] == sub
  }

  /** Where the `k`-th part starts in `Join(sep, parts)`. */
  function PartOffset(sep: string, parts: seq<string>, k: nat): nat
    requires k <= |parts|
  {
    TotalLength(parts[..k]) + k * |sep|
  }

  lemma PartOffsetStep(sep: string, parts: seq<string>, k: nat)
    requires 0 < k <= |parts|
    ensures PartOffset(sep, parts, k) == |parts[0]| + |sep| + PartOffset(sep, parts[1..], k - 1)
  {
    assert parts[..k] == [parts[0]] + parts[1..][..k - 1];
    assert parts[..k][1..] == parts[1..][..k - 1];
  }

  /** The layout of a join: each part sits at its offset, exactly one
      separator lies between neighbours, and the text ends with the last part. */
  lemma JoinLayout(sep: string, parts: seq<string>, k: nat)
    requires k < |parts|
    ensures Occurs(Join(sep, parts), parts[k], PartOffset(sep, parts, k))
    ensures k + 1 < |parts| ==>
      && Occurs(Join(sep, parts), sep, PartOffset(sep, parts, k) + |parts[k]|)
      && PartOffset(sep, parts, k + 1) == PartOffset(sep, parts, k) + |parts[k]| + |sep|
    ensures k + 1 == |parts| ==> |Join(sep, parts)| == PartOffset(sep, parts, k) + |parts[k]|
  {
    JoinPartAt(sep, parts, k);
    if k + 1 < |parts| {
      JoinSeparatorAfter(sep, parts, k);
      PartOffsetNext(sep, parts, k);
    } else {
      PartOffsetNext(sep, parts, k);
      assert parts[..k + 1] == parts;
      assert (k + 1) * |sep| == k * |sep| + |sep|;
    }
  }

  lemma {:induction false} JoinPartAt(sep: string, parts: seq<string>, k: nat)
    requires k < |parts|
    ensures Occurs(Join(sep, parts), parts[k], PartOffset(sep, parts, k))
    decreases k
  {
    assert parts[..0] == [];
    if k == 0 {
      if |parts| > 1 {
        assert Join(sep, parts) == parts[0] + (sep + Join(sep, parts[1..]));
      }
    } else {
      JoinPartAt(sep, parts[1..], k - 1);
      PartOffsetStep(sep, parts, k);
      assert Join(sep, parts) == (parts[0] + sep) + Join(sep, parts[1..]);
      OccursShift(parts[0] + sep, Join(sep, parts[1..]), parts[k], PartOffset(sep, parts[1..], k - 1));
    }
  }

  lemma {:induction false} JoinSeparatorAfter(sep: string, parts: seq<string>, k: nat)
    requires k + 1 < |parts|
    ensures Occurs(Join(sep, parts), sep, PartOffset(sep, parts, k) + |parts[k]|)
    decreases k
  {
    if k == 0 {
      assert parts[..0] == [];
      JoinFirstSeparator(sep, parts);
    } else {
      JoinSeparatorAfter(sep, parts[1..], k - 1);
      PartOffsetStep(sep, parts, k);
      assert Join(sep, parts) == (parts[0] + sep) + Join(sep, parts[1..]);
      OccursShift(parts[0] + sep, Join(sep, parts[1..]), sep, PartOffset(sep, parts[1..], k - 1) + |parts[k]|);
    }
  }

  lemma JoinFirstSeparator(sep: string, parts: seq<string>)
    requires |parts| > 1
    ensures Occurs(Join(sep, parts), sep, |parts[0]|)
  {
    var j := Join(sep, parts);
    assert j == parts[0] + sep + Join(sep, parts[1..]);
    assert j[|parts[0]|..|parts[0]| + |sep|] == sep;
  }

  lemma PartOffsetNext(sep: string, parts: seq<string>, k: nat)
    requires k < |parts|
    ensures PartOffset(sep, parts, k + 1) == PartOffset(sep, parts, k) + |parts[k]| + |sep|
  {
    assert parts[..k + 1] == parts[..k] + [parts[k]];
    LengthOfSnoc(parts[..k], parts[k]);
  }

  /** An occurrence in `rest` is one in `head + rest`, shifted by `|head|`. */
  lemma OccursShift(head: string, rest: string, sub: string, at: nat)
    requires Occurs(rest, sub, at)
    ensures Occurs(head + rest, sub, |head| + at)
  {
    assert (head + rest)[|head|..|head| + |rest|] == rest;
    OccursWithin(head + rest, rest, |head|, sub, at);
  }

  lemma OccursInSuffix(s: string, d: nat, sub: string, at: nat)
    requires d <= |s| && Occurs(s[d..], sub, at)
    ensures Occurs(s, sub, at + d)
  {
    assert s == s[..d] + s[d..];
    OccursShift(s[..d], s[d..], sub, at);
  }

  /** An occurrence inside an occurrence. */
  lemma OccursWithin(s: string, mid: string, at: nat, sub: string, off: nat)
    requires Occurs(s, mid, at) && Occurs(mid, sub, off)
    ensures Occurs(s, sub, at + off)
  {
    forall i | 0 <= i < |sub| ensures s[at + off + i] == sub[i] {
      assert s[at..at + |mid|][off + i] == mid[off + i];
      assert mid[off..off + |sub|][i] == sub[i];
    }
    assert s[at + off..at + off + |sub|] == sub;
  }

  lemma {:induction false} LengthOfSnoc(parts: seq<string>, p: string)
    ensures TotalLength(parts + [p]) == TotalLength(parts) + |p|
    decreases |parts|
  {
    if parts == [] {
      assert ([] + [p])[1..] == [];
    } else {
      assert (parts + [p])[1..] == parts[1..] + [p];
      LengthOfSnoc(parts[1..], p);
    }
  }
}
