/**
  Properties of the tag scanner and of tag expansion: what a match covers,
  that the search finds every tag and skips plain text, and worked examples.
 */
module TagScan {
  import opened Wrappers
  import opened QtString
  import opened Tags

  /** What TagAt finds is exactly the text of the tag it reports. */
  lemma TagAtMatchesText(s: string, i: nat)
    requires TagAt(s, i).Some?
    ensures var t := TagAt(s, i).value; s[i..t.End()] == t.Text()
  {
    var t := TagAt(s, i).value;
    var z := t.zeros;
    var j := i + 1 + z;
    ZerosSlice(s, i + 1, z);
    if t.digits == [] {
      assert t.End() == j + 1 && t.Text() == "<" + Zeros(z) + ">";
      PlainTagText(s, i, j, Zeros(z));
    } else {
      var e := j + 1 + |t.digits|;
      assert t.End() == e + 1 && t.Text() == "<" + Zeros(z) + ":" + t.digits + ">";
      assert s[j + 1..e] == t.digits;
      NumberedTagText(s, i, j, e, Zeros(z), t.digits);
    }
  }

  /** The text "<" + zs + ">" standing at i, with the closing bracket at j. */
  lemma PlainTagText(s: string, i: nat, j: nat, zs: string)
    requires i < j < |s| && s[i] == '<' && s[i + 1..j] == zs && s[j] == '>'
    ensures s[i..j + 1] == "<" + zs + ">"
  {
    Bracketed(s, i, j);
    assert [s[i]] == "<" && [s[j]] == ">";
  }

  /** The text "<" + zs + ":" + ds + ">" standing at i, with the ':' at j and the closing bracket at e. */
  lemma NumberedTagText(s: string, i: nat, j: nat, e: nat, zs: string, ds: string)
    requires i < j < e < |s| && s[i] == '<' && s[i + 1..j] == zs && s[j] == ':'
    requires s[j + 1..e] == ds && s[e] == '>'
    ensures s[i..e + 1] == "<" + zs + ":" + ds + ">"
  {
    BracketedPair(s, i, j, e);
    assert [s[i]] == "<" && [s[j]] == ":" && [s[e]] == ">";
  }

  /** A run of z zeros in s, read as a slice. */
  lemma ZerosSlice(s: string, lo: nat, z: nat)
    requires lo + z <= |s| && forall k :: lo <= k < lo + z ==> s[k] == '0'
    ensures s[lo..lo + z] == Zeros(z)
  {
    forall k | 0 <= k < z ensures s[lo..lo + z][k] == Zeros(z)[k] {
      assert s[lo..lo + z][k] == s[lo + k];
    }
  }

  /** s[i..j + 1] read as its first character, its middle and its last character. */
  lemma Bracketed(s: string, i: nat, j: nat)
    requires i < j < |s|
    ensures s[i..j + 1] == [s[i]] + s[i + 1..j] + [s[j]]
  {
    assert s[i..j + 1] == s[i..j] + [s[j]];
    assert s[i..j] == [s[i]] + s[i + 1..j];
  }

  /** s[i..e + 1] read as two bracketed stretches that share the character at j. */
  lemma BracketedPair(s: string, i: nat, j: nat, e: nat)
    requires i < j < e < |s|
    ensures s[i..e + 1] == [s[i]] + s[i + 1..j] + [s[j]] + s[j + 1..e] + [s[e]]
  {
    assert s[i..e + 1] == s[i..j] + s[j..e + 1];
    Bracketed(s, j, e);
    assert s[i..j] == [s[i]] + s[i + 1..j];
  }

  /** Where each character of a tag's text comes from. */
  lemma TextLayout(t: Tag)
    requires t.Valid()
    ensures var text := t.Text();
      && |text| == t.End() - t.start
      && (t.digits != [] ==> text[1 + t.zeros] == ':' && text[|text| - 1] == '>')
      && (t.digits != [] ==> text[2 + t.zeros..|text| - 1] == t.digits)
  {
    if t.digits != [] {
      var zs: string := Zeros(t.zeros);
      assert t.Text() == ("<" + zs + ":") + t.digits + ">";
    }
  }

  /** The opening of a tag's text: '<', the zeros, then '>' or ':'. */
  lemma TextOpening(t: Tag, text: string)
    requires text == t.Text()
    ensures |text| == t.End() - t.start && 1 + t.zeros < |text|
    ensures text[0] == '<'
    ensures forall k :: 1 <= k < 1 + t.zeros ==> text[k] == '0'
    ensures text[1 + t.zeros] == if t.digits == [] then '>' else ':'
  {
    var zs: string := Zeros(t.zeros);
    var rest: string := if t.digits == [] then ">" else ":" + t.digits + ">";
    assert text == "<" + zs + rest;
    assert text[1 + t.zeros] == rest[0];
  }

  /** The scan misses no tag: wherever a tag's text stands, TagAt finds exactly that tag. */
  lemma TagAtFindsEveryTag(s: string, t: Tag)
    requires t.Valid()
    requires t.End() <= |s| && s[t.start..t.End()] == t.Text()
    ensures TagAt(s, t.start) == Some(t)
  {
    OpeningOfTag(s, t);
    if t.digits != [] {
      StartDigitsOfTag(s, t);
      TagAtFindsNumberedTag(s, t);
    }
  }

  /** The case of a tag with a start number, once its characters are known. */
  lemma TagAtFindsNumberedTag(s: string, t: Tag)
    requires t.Valid() && t.digits != [] && t.End() <= |s|
    requires s[t.start] == '<' && ZeroRun(s, t.start + 1) == t.zeros
    requires s[t.start + 1 + t.zeros] == ':'
    requires s[t.End() - 1] == '>' && s[t.start + 2 + t.zeros..t.End() - 1] == t.digits
    ensures TagAt(s, t.start) == Some(t)
  {
    NumberedTagAt(s, t.start, t.zeros, t.digits);
  }

  /** TagAt on a '<', z zeros, ':', the digits u and '>'. */
  lemma NumberedTagAt(s: string, i: nat, z: nat, u: string)
    requires z > 0 && u != [] && AllDigits(u) && i + z + |u| + 2 < |s|
    requires s[i] == '<' && ZeroRun(s, i + 1) == z && s[i + 1 + z] == ':'
    requires s[i + z + 2..i + z + |u| + 2] == u && s[i + z + |u| + 2] == '>'
    ensures TagAt(s, i) == Some(Tag(i, z, u))
  {
    var j := i + 1 + z;
    NumberedTagRuns(s, j, u);
    assert TagAt(s, i) == Some(Tag(i, z, s[j + 1..j + 1 + |u|]));
  }

  /** After the ':' at j: the digit run is exactly u and ends at the closing bracket. */
  lemma NumberedTagRuns(s: string, j: nat, u: string)
    requires AllDigits(u) && j + |u| + 1 < |s| && s[j] == ':'
    requires s[j + 1..j + |u| + 1] == u && s[j + |u| + 1] == '>'
    ensures s[j] != '>' && DigitRun(s, j + 1) == |u| && s[j + 1 + |u|] == '>'
  {
    DigitRunOver(s, j + 1, u);
  }

  /** The opening bracket and the zeros of a tag found in place. */
  lemma OpeningOfTag(s: string, t: Tag)
    requires t.Valid()
    requires t.End() <= |s| && s[t.start..t.End()] == t.Text()
    ensures s[t.start] == '<' && ZeroRun(s, t.start + 1) == t.zeros
    ensures t.start + 1 + t.zeros < |s|
    ensures s[t.start + 1 + t.zeros] == if t.digits == [] then '>' else ':'
  {
    var text := t.Text();
    TextOpening(t, text);
    OpeningOfText(s, t.start, t.End(), text, t.zeros, if t.digits == [] then '>' else ':');
  }

  /** A slice that opens with '<', z zeros and then c (not a zero) has them in place in s. */
  lemma OpeningOfText(s: string, lo: nat, hi: nat, text: string, z: nat, c: char)
    requires lo <= hi <= |s| && s[lo..hi] == text && 1 + z < |text|
    requires text[0] == '<' && text[1 + z] == c && c != '0'
    requires forall k :: 1 <= k < 1 + z ==> text[k] == '0'
    ensures s[lo] == '<' && lo + 1 + z < |s| && s[lo + 1 + z] == c
    ensures ZeroRun(s, lo + 1) == z
  {
    CharOfSlice(s, lo, hi, text, 0);
    CharOfSlice(s, lo, hi, text, 1 + z);
    ZerosOfSlice(s, lo, hi, text, z);
    ZeroRunIs(s, lo + 1, z);
  }

  /** The zeros that follow the first character of a slice stand in the sequence too. */
  lemma ZerosOfSlice(s: string, lo: nat, hi: nat, u: string, z: nat)
    requires lo <= hi <= |s| && s[lo..hi] == u && 1 + z <= |u|
    requires forall k :: 1 <= k < 1 + z ==> u[k] == '0'
    ensures forall k :: lo + 1 <= k < lo + 1 + z ==> s[k] == '0'
  {
    forall k | lo + 1 <= k < lo + 1 + z ensures s[k] == '0' {
      assert s[lo..hi][k - lo] == s[k];
    }
  }

  /** A character of a slice is the character of the sequence at the shifted position. */
  lemma CharOfSlice(s: string, lo: nat, hi: nat, u: string, m: nat)
    requires lo <= hi <= |s| && s[lo..hi] == u && m < |u|
    ensures s[lo + m] == u[m]
  {
    assert s[lo..hi][m] == s[lo + m];
  }

  /** The start digits and the closing bracket of a tag that has a start number. */
  lemma StartDigitsOfTag(s: string, t: Tag)
    requires t.Valid() && t.digits != []
    requires t.End() <= |s| && s[t.start..t.End()] == t.Text()
    ensures t.End() - 1 < |s| && s[t.End() - 1] == '>'
    ensures s[t.start + 2 + t.zeros..t.End() - 1] == t.digits
  {
    var i, z, n := t.start, t.zeros, |t.Text()|;
    var text := t.Text();
    TextLayout(t);
    var j := i + 1 + z;
    var d := |t.digits|;
    var e := j + 1 + d;
    assert t.End() == i + n && e == i + n - 1;
    assert s[e] == text[n - 1] == '>';
    SliceOfSlice(s, i, t.End(), 2 + z, n - 1);
    assert s[j + 1..e] == t.digits;
  }

  /** Where a digit string stands before a non-digit, the digit run is exactly that string. */
  lemma DigitRunOver(s: string, lo: nat, u: string)
    requires AllDigits(u) && lo + |u| < |s| && s[lo..lo + |u|] == u
    requires !IsDigit(s[lo + |u|])
    ensures DigitRun(s, lo) == |u|
  {
    forall k | lo <= k < lo + |u| ensures IsDigit(s[k]) {
      assert s[k] == u[k - lo];
    }
    DigitRunIs(s, lo, |u|);
  }

  lemma SliceOfSlice(s: string, lo: nat, hi: nat, a: nat, b: nat)
    requires lo <= hi <= |s| && a <= b <= hi - lo
    ensures s[lo..hi][a..b] == s[lo + a..lo + b]
  {
    var u, v := s[lo..hi][a..b], s[lo + a..lo + b];
    assert |u| == |v|;
    forall k | 0 <= k < |u| ensures u[k] == v[k] {
      assert u[k] == s[lo..hi][a + k] == s[lo + a + k];
    }
  }

  lemma SliceIs(s: string, lo: nat, hi: nat, u: string)
    requires lo <= hi <= |s| && hi - lo == |u|
    requires forall k :: lo <= k < hi ==> s[k] == u[k - lo]
    ensures s[lo..hi] == u
  {
  }

  lemma {:induction false} ZeroRunIs(s: string, i: nat, z: nat)
    requires i + z < |s|
    requires forall k :: i <= k < i + z ==> s[k] == '0'
    requires s[i + z] != '0'
    ensures ZeroRun(s, i) == z
    decreases z
  {
    if z > 0 {
      ZeroRunIs(s, i + 1, z - 1);
    }
  }

  lemma {:induction false} DigitRunIs(s: string, i: nat, d: nat)
    requires i + d < |s|
    requires forall k :: i <= k < i + d ==> IsDigit(s[k])
    requires !IsDigit(s[i + d])
    ensures DigitRun(s, i) == d
    decreases d
  {
    if d > 0 {
      DigitRunIs(s, i + 1, d - 1);
    }
  }

  /** NextTag finds the leftmost match: no tag starts between p and the match it returns. */
  lemma {:induction false} NextTagIsLeftmost(s: string, p: nat)
    ensures forall q :: p <= q < |s| && (NextTag(s, p).None? || q < NextTag(s, p).value.start)
                        ==> TagAt(s, q).None?
    decreases |s| - p
  {
    if p < |s| && TagAt(s, p).None? {
      NextTagIsLeftmost(s, p + 1);
    }
  }

  /** No tag starts where there is no '<': the search skips such a stretch of text. */
  lemma {:induction false} NextTagSkips(s: string, p: nat, q: nat)
    requires p <= q <= |s|
    requires forall k :: p <= k < q ==> s[k] != '<'
    ensures NextTag(s, p) == NextTag(s, q)
    decreases q - p
  {
    if p < q {
      assert TagAt(s, p).None?;
      NextTagSkips(s, p + 1, q);
    }
  }

  /** Text without any '<' holds no tag and comes back unchanged. */
  lemma PlainTextUnchanged(s: string, p: nat, fileIndex: nat)
    requires p <= |s|
    requires forall k :: 0 <= k < |s| ==> s[k] != '<'
    ensures ExpandFrom(s, p, fileIndex) == s[p..]
  {
    NextTagSkips(s, p, |s|);
  }

  /** A tag's text holds exactly one '<', its first character. */
  lemma OneOpeningInText(t: Tag)
    requires t.Valid()
    ensures multiset(t.Text())['<'] == 1
  {
    OneOpeningInParts(Zeros(t.zeros), t.digits);
  }

  /** '<', digits, optionally ':' and more digits, then '>': one '<' in all. */
  lemma OneOpeningInParts(zs: string, digits: string)
    requires AllDigits(zs) && AllDigits(digits)
    ensures multiset("<" + zs + (if digits == [] then "" else ":" + digits) + ">")['<'] == 1
  {
    var mid: string := if digits == [] then "" else ":" + digits;
    NoOpeningInDigits(zs);
    NoOpeningInDigits(digits);
    assert multiset(mid)['<'] == 0;
    CountInThree("<", zs, mid, '<');
    CountInThree("<" + zs + mid, ">", [], '<');
    assert "<" + zs + mid + ">" == "<" + zs + mid + ">" + [];
  }

  /** A digit string holds no '<'. */
  lemma NoOpeningInDigits(r: string)
    requires AllDigits(r)
    ensures multiset(r)['<'] == 0
  {
    assert '<' !in r by {
      forall k | 0 <= k < |r| ensures r[k] != '<' {
        assert IsDigit(r[k]);
      }
    }
  }

  /**
    Every match the expansion replaces takes exactly one '<' out of the
    text, and nothing else adds or removes one.
   */
  lemma {:induction false} ExpandDropsOneOpeningPerTag(s: string, p: nat, fileIndex: nat)
    requires p <= |s|
    ensures multiset(ExpandFrom(s, p, fileIndex))['<'] + |TagsFrom(s, p)| == multiset(s[p..])['<']
    decreases |s| - p
  {
    match NextTag(s, p)
    case None =>
    case Some(t) =>
      var e := t.End();
      var rendered := Render(t, fileIndex);
      assert ExpandFrom(s, p, fileIndex) == s[p..t.start] + rendered + ExpandFrom(s, e, fileIndex);
      assert |TagsFrom(s, p)| == 1 + |TagsFrom(s, e)|;
      TagAtMatchesText(s, t.start);
      ExpandDropsOneOpeningPerTag(s, e, fileIndex);
      OneOpeningInText(t);
      NoOpeningInDigits(rendered);
      SliceInThree(s, p, t.start, e);
      OpeningCountStep(s[p..t.start], s[t.start..e], s[e..], rendered, ExpandFrom(s, e, fileIndex), |TagsFrom(s, e)|);
  }

  /** One tag's text, holding one '<', replaced by a rendering without any. */
  lemma OpeningCountStep(before: string, text: string, after: string, rendered: string, rest: string, later: nat)
    requires multiset(text)['<'] == 1 && multiset(rendered)['<'] == 0
    requires multiset(rest)['<'] + later == multiset(after)['<']
    ensures multiset(before + rendered + rest)['<'] + (1 + later) == multiset(before + text + after)['<']
  {
    CountInThree(before, rendered, rest, '<');
    CountInThree(before, text, after, '<');
  }

  lemma SliceInThree<T>(x: seq<T>, lo: nat, a: nat, b: nat)
    requires lo <= a <= b <= |x|
    ensures x[lo..] == x[lo..a] + x[a..b] + x[b..]
  {
  }

  lemma CountInThree<T>(x: seq<T>, y: seq<T>, z: seq<T>, c: T)
    ensures multiset(x + y + z)[c] == multiset(x)[c] + multiset(y)[c] + multiset(z)[c]
  {
    assert multiset(x + y + z) == multiset(x) + multiset(y) + multiset(z);
  }

  /** Expansion leaves a text unchanged exactly when no tag is found in it. */
  lemma ExpandUnchangedIffNoTag(s: string, p: nat, fileIndex: nat)
    requires p <= |s|
    ensures ExpandFrom(s, p, fileIndex) == s[p..] <==> NextTag(s, p).None?
  {
    ExpandDropsOneOpeningPerTag(s, p, fileIndex);
  }

  /** A rendered number is digits only, so expanding it again changes nothing. */
  lemma RenderedNumberIsFinal(t: Tag, fileIndex: nat, laterIndex: nat)
    requires t.Valid()
    ensures Expand(Render(t, fileIndex), laterIndex) == Render(t, fileIndex)
  {
    var r := Render(t, fileIndex);
    PlainTextUnchanged(r, 0, laterIndex);
  }

  /**
    One tag between two texts without '<': the texts are copied and the tag
    becomes its rendering.
   */
  lemma TagBetweenPlainText(before: string, t: Tag, after: string, s: string, fileIndex: nat)
    requires t.Valid() && t.start == |before| && NoOpening(before) && NoOpening(after)
    requires s == before + t.Text() + after
    ensures Expand(s, fileIndex) == before + Render(t, fileIndex) + after
  {
    TextLayout(t);
    var e := t.End();
    assert s[t.start..e] == t.Text();
    TagAtFindsEveryTag(s, t);
    NextTagSkips(s, 0, t.start);
    assert s[e..] == after;
    NextTagSkips(s, e, |s|);
    assert ExpandFrom(s, e, fileIndex) == after;
    assert s[0..t.start] == before;
  }

  /** A text that is one tag and nothing else becomes that tag's rendering. */
  lemma LoneTag(t: Tag, s: string, fileIndex: nat)
    requires t.Valid() && t.start == 0 && s == t.Text()
    ensures Expand(s, fileIndex) == Render(t, fileIndex)
  {
    var none: string := [];
    NothingAround(t.Text());
    TagBetweenPlainText(none, t, none, s, fileIndex);
    NothingAround(Render(t, fileIndex));
  }

  lemma NothingAround<T>(x: seq<T>)
    ensures [] + x + [] == x
  {
  }

  /** The documented examples of the tag format: `<0>` for the first file. */
  lemma TagExampleFirstFile(s: string)
    requires s == "<0>"
    ensures Expand(s, 0) == "1"
  {
    var t := Tag(0, 1, "");
    FirstFileLayout(s, t);
    LoneTag(t, s, 0);
    FirstFileResult(t, Render(t, 0));
  }

  lemma FirstFileLayout(s: string, t: Tag)
    requires s == "<0>" && t == Tag(0, 1, "")
    ensures t.Valid() && t.start == 0 && s == t.Text()
  {
    assert Zeros(1) == "0";
  }

  lemma FirstFileResult(t: Tag, r: string)
    requires t.Valid() && t.zeros == 1 && t.digits == [] && r == Render(t, 0)
    ensures r == "1"
  {
    assert StartNumber(t) == 1;
    assert NatToDecimal(1) == "1";
    RenderWide(t, 0);
  }

  /** A number at least as wide as the tag's zeros is rendered as it is. */
  lemma RenderWide(t: Tag, fileIndex: nat)
    requires t.Valid() && |NatToDecimal(StartNumber(t) + fileIndex)| >= t.zeros
    ensures Render(t, fileIndex) == NatToDecimal(StartNumber(t) + fileIndex)
  {
    var digits := NatToDecimal(StartNumber(t) + fileIndex);
    assert Render(t, fileIndex) == ZeroPadded(digits, t.zeros);
  }

  /** `<00:5>` for the fourth file: 5 + 3 in a field of two digits. */
  lemma TagExampleStartNumber(s: string)
    requires s == "<00:5>"
    ensures Expand(s, 3) == "08"
  {
    var t := Tag(0, 2, "5");
    StartNumberLayout(s, t);
    LoneTag(t, s, 3);
    StartNumberResult(t, Render(t, 3));
  }

  lemma StartNumberLayout(s: string, t: Tag)
    requires s == "<00:5>" && t == Tag(0, 2, "5")
    ensures t.Valid() && t.start == 0 && s == t.Text()
  {
    assert Zeros(2) == "00";
  }

  lemma StartNumberResult(t: Tag, r: string)
    requires t.Valid() && t.zeros == 2 && t.digits == "5" && r == Render(t, 3)
    ensures r == "08"
  {
    ToIntOfDigits("5");
    assert DigitsValue("5") == 5;
    assert NatToDecimal(8) == "8";
    assert Zeros(1) + "8" == "08";
  }

  /** `img_<000>_x` for the third file: the text around the tag is kept. */
  lemma TagExampleInText(s: string)
    requires s == "img_<000>_x"
    ensures Expand(s, 2) == "img_003_x"
  {
    var t := Tag(4, 3, "");
    InTextLayout(s, t);
    TagBetweenPlainText("img_", t, "_x", s, 2);
    InTextResult(t, Render(t, 2));
  }

  lemma InTextLayout(s: string, t: Tag)
    requires s == "img_<000>_x" && t == Tag(4, 3, "")
    ensures t.Valid() && t.start == |"img_"| && NoOpening("img_") && NoOpening("_x")
    ensures s == "img_" + t.Text() + "_x"
  {
    assert Zeros(3) == "000";
  }

  lemma InTextResult(t: Tag, r: string)
    requires t.Valid() && t.zeros == 3 && t.digits == [] && r == Render(t, 2)
    ensures "img_" + r + "_x" == "img_003_x"
  {
    assert NatToDecimal(3) == "3";
    assert Zeros(2) + "3" == "003";
  }
}
