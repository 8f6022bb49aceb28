/**
  Operation::replaceTags as the source runs it: collect all matches, then
  rewrite them in place from the rightmost one back, proved equal to the
  single-pass expansion of Tags.Expand.
 */
module TagReplace {
  import opened Wrappers
  import opened QtString
  import opened Tags
  import opened TagScan

  /** Each match of TagsFrom is the next match after the previous one, and none follows the last. */
  lemma {:induction false} TagsFromAreConsecutive(s: string, p: nat)
    requires p <= |s|
    ensures var tags := TagsFrom(s, p);
      && (forall k :: 0 <= k < |tags| ==> NextTag(s, SearchStart(tags, p, k)) == Some(tags[k]))
      && SearchStart(tags, p, |tags|) <= |s|
      && NextTag(s, SearchStart(tags, p, |tags|)).None?
    decreases |s| - p
  {
    var tags := TagsFrom(s, p);
    match NextTag(s, p)
    case None =>
    case Some(t) =>
      var rest := TagsFrom(s, t.End());
      assert tags == [t] + rest;
      TagsFromAreConsecutive(s, t.End());
      forall k | 0 <= k < |tags| ensures NextTag(s, SearchStart(tags, p, k)) == Some(tags[k]) {
        if k > 0 {
          SearchStartInTail(t, rest, p, k);
        }
      }
      SearchStartInTail(t, rest, p, |tags|);
  }

  /** Past the first match, the searches of [t] + rest are those of rest, resumed at t's end. */
  lemma SearchStartInTail(t: Tag, rest: seq<Tag>, p: nat, k: nat)
    requires 0 < k <= |rest| + 1
    ensures SearchStart([t] + rest, p, k) == SearchStart(rest, t.End(), k - 1)
  {
    if k > 1 {
      assert ([t] + rest)[k - 1] == rest[k - 2];
    }
  }

  /**
    One step of the right-to-left rewrite: once everything from the end of
    match k on is expanded, replacing match k in place (at its original
    position, which nothing before it has moved) extends the expanded part
    back to where the search for match k started.
   */
  lemma RewriteOneMatch(text: string, b: nat, t: Tag, fileIndex: nat, result: string)
    requires b <= |text| && NextTag(text, b) == Some(t)
    requires result == text[..t.End()] + ExpandFrom(text, t.End(), fileIndex)
    ensures t.start <= t.End() <= |result|
    ensures result[..t.start] + Render(t, fileIndex) + result[t.End()..]
            == text[..b] + ExpandFrom(text, b, fileIndex)
  {
    var rest, r := ExpandFrom(text, t.End(), fileIndex), Render(t, fileIndex);
    assert ExpandFrom(text, b, fileIndex) == text[b..t.start] + r + rest;
    Splice(text, b, t.start, t.End(), r, rest, result);
  }

  /** Replacing text[start..end] by r in text[..end] + rest, as a sequence identity. */
  lemma Splice(text: string, b: nat, start: nat, end: nat, r: string, rest: string, result: string)
    requires b <= start <= end <= |text|
    requires result == text[..end] + rest
    ensures result[..start] + r + result[end..] == text[..b] + (text[b..start] + r + rest)
  {
    assert result[..start] == text[..start] == text[..b] + text[b..start];
    assert result[end..] == rest;
  }

  /**
    The first loop of Operation::replaceTags: a global match over the text,
    each match put in front of the list, so the list ends up rightmost
    match first.
   */
  method CollectTags(text: string) returns (matches: seq<Tag>)
    ensures var all := TagsFrom(text, 0);
      |matches| == |all| && forall k :: 0 <= k < |all| ==> matches[k] == all[|all| - 1 - k]
  {
    ghost var all := TagsFrom(text, 0);
    matches := [];
    var p: nat := 0;
    var next := NextTag(text, 0);
    while next.Some?
      invariant p <= |text| && next == NextTag(text, p)
      invariant |matches| <= |all| && TagsFrom(text, p) == all[|matches|..]
      invariant forall k :: 0 <= k < |matches| ==> matches[k] == all[|matches| - 1 - k]
      decreases |text| - p
    {
      CollectStep(text, p, matches, all);
      matches := [next.value] + matches;
      p := next.value.End();
      next := NextTag(text, p);
    }
    CollectDone(text, p, matches, all);
  }

  /** One turn of the collecting loop: the next match goes in front and the search resumes past it. */
  lemma CollectStep(text: string, p: nat, matches: seq<Tag>, all: seq<Tag>)
    requires p <= |text| && NextTag(text, p).Some?
    requires |matches| <= |all| && TagsFrom(text, p) == all[|matches|..]
    requires forall k :: 0 <= k < |matches| ==> matches[k] == all[|matches| - 1 - k]
    ensures var x := NextTag(text, p).value;
      && p < x.End() <= |text| && |matches| < |all| && TagsFrom(text, x.End()) == all[|matches| + 1..]
      && forall k :: 0 <= k < |matches| + 1 ==> ([x] + matches)[k] == all[|matches| - k]
  {
    var x := NextTag(text, p).value;
    assert TagsFrom(text, p) == [x] + TagsFrom(text, x.End());
    ConsSuffix(all, |matches|, x, TagsFrom(text, x.End()));
    PrependKeepsReversed(matches, all, x);
  }

  /** When the search finds nothing more, every match has been collected. */
  lemma CollectDone(text: string, p: nat, matches: seq<Tag>, all: seq<Tag>)
    requires p <= |text| && NextTag(text, p).None?
    requires |matches| <= |all| && TagsFrom(text, p) == all[|matches|..]
    ensures |matches| == |all|
  {
    assert all[|matches|..] == [];
  }

  /** A suffix of `all` that starts with x followed by rest: x is the next element, rest the suffix after it. */
  lemma ConsSuffix<T>(all: seq<T>, n: nat, x: T, rest: seq<T>)
    requires n <= |all| && all[n..] == [x] + rest
    ensures n < |all| && all[n] == x && all[n + 1..] == rest
  {
    assert all[n..][0] == x;
    assert all[n + 1..] == all[n..][1..];
  }

  /** Putting the next element of `all` in front keeps a list the reverse of a prefix of `all`. */
  lemma PrependKeepsReversed<T>(prev: seq<T>, all: seq<T>, x: T)
    requires |prev| < |all| && all[|prev|] == x
    requires forall k :: 0 <= k < |prev| ==> prev[k] == all[|prev| - 1 - k]
    ensures forall k :: 0 <= k < |prev| + 1 ==> ([x] + prev)[k] == all[|prev| - k]
  {
    forall k | 0 <= k < |prev| + 1 ensures ([x] + prev)[k] == all[|prev| - k] {
      if k > 0 {
        assert ([x] + prev)[k] == prev[k - 1];
      }
    }
  }

  /**
    Operation::replaceTags: the matches are rewritten rightmost first, so
    the positions of the matches still to be replaced do not move. The
    result is the single-pass expansion of the text.
   */
  method ReplaceTags(text: string, fileIndex: nat) returns (result: string)
    ensures result == Expand(text, fileIndex)
  {
    var matches := CollectTags(text);
    NothingAfterLastMatch(text, fileIndex, matches);
    result := text;
    var rest := matches;
    while rest != []
      invariant Pending(text, rest) && result == PartlyExpanded(text, fileIndex, rest)
    {
      var t := rest[0];
      NextMatchFits(text, fileIndex, rest, result);
      ghost var previous := result;
      result := RenderInPlace(result, t, fileIndex);
      ReplaceStep(text, fileIndex, rest, previous, result);
      rest := rest[1..];
    }
    ExpandedFromStart(text, fileIndex, rest);
  }

  /** The text with the stretch a match covers replaced by its rendering. */
  function RenderInPlace(s: string, t: Tag, fileIndex: nat): (r: string)
    requires t.Valid() && t.End() <= |s|
    ensures |r| == |s| - (t.End() - t.start) + |Render(t, fileIndex)|
    ensures r[..t.start] == s[..t.start] && r[t.start + |Render(t, fileIndex)|..] == s[t.End()..]
    ensures r[t.start..t.start + |Render(t, fileIndex)|] == Render(t, fileIndex)
  {
    s[..t.start] + Render(t, fileIndex) + s[t.End()..]
  }

  /**
    The matches still to be rewritten: the first |rest| matches of the
    global match, rightmost first.
   */
  ghost predicate Pending(text: string, rest: seq<Tag>) {
    var all := TagsFrom(text, 0);
    |rest| <= |all| && forall k :: 0 <= k < |rest| ==> rest[k] == all[|rest| - 1 - k]
  }

  /**
    The text while the matches `rest` are still to be rewritten: unchanged
    up to where the search for the first of them started, expanded from
    there on.
   */
  ghost function PartlyExpanded(text: string, fileIndex: nat, rest: seq<Tag>): string
    requires Pending(text, rest)
  {
    var b := SearchStart(TagsFrom(text, 0), 0, |rest|);
    text[..b] + ExpandFrom(text, b, fileIndex)
  }

  /** Before any match is rewritten, everything after the last match is already in its expanded form. */
  lemma NothingAfterLastMatch(text: string, fileIndex: nat, matches: seq<Tag>)
    requires |matches| == |TagsFrom(text, 0)| && Pending(text, matches)
    ensures text == PartlyExpanded(text, fileIndex, matches)
  {
    TagsFromAreConsecutive(text, 0);
    var all := TagsFrom(text, 0);
    var b := SearchStart(all, 0, |all|);
    assert ExpandFrom(text, b, fileIndex) == text[b..];
  }

  /** Once no match is left, the whole text is expanded. */
  lemma ExpandedFromStart(text: string, fileIndex: nat, rest: seq<Tag>)
    requires rest == [] && Pending(text, rest)
    ensures PartlyExpanded(text, fileIndex, rest) == Expand(text, fileIndex)
  {
    assert text[..0] == [];
  }

  /** The next match to rewrite lies inside the text rewritten so far, and the rest stays pending. */
  lemma NextMatchFits(text: string, fileIndex: nat, rest: seq<Tag>, result: string)
    requires rest != [] && Pending(text, rest) && result == PartlyExpanded(text, fileIndex, rest)
    ensures rest[0].Valid() && rest[0].End() <= |result| && Pending(text, rest[1..])
  {
    var all := TagsFrom(text, 0);
    assert rest[0] == all[|rest| - 1] && SearchStart(all, 0, |rest|) == rest[0].End();
    forall k | 0 <= k < |rest| - 1 ensures rest[1..][k] == all[|rest| - 2 - k] {
      assert rest[1..][k] == rest[k + 1];
    }
  }

  /**
    One turn of the rewriting loop: the first pending match is match
    |rest| - 1 of the global match, and rewriting it in place extends the
    expanded part back to where the search for it started.
   */
  lemma ReplaceStep(text: string, fileIndex: nat, rest: seq<Tag>, previous: string, result: string)
    requires rest != [] && Pending(text, rest) && previous == PartlyExpanded(text, fileIndex, rest)
    requires rest[0].Valid() && rest[0].End() <= |previous| && result == RenderInPlace(previous, rest[0], fileIndex)
    ensures Pending(text, rest[1..]) && result == PartlyExpanded(text, fileIndex, rest[1..])
  {
    NextMatchFits(text, fileIndex, rest, previous);
    var all := TagsFrom(text, 0);
    var k := |rest| - 1;
    assert rest[0] == all[k];
    TagsFromAreConsecutive(text, 0);
    var b := SearchStart(all, 0, k);
    assert NextTag(text, b) == Some(all[k]);
    RewriteOneMatch(text, b, all[k], fileIndex, previous);
  }
}
