/**
  Numbering tags (src/operation.cpp, Operation::replaceTags): the tag
  pattern `<(0+)(?::(\d+))?>` scanned by hand, the left-to-right global
  match, the rendering of one tag and the expansion of a whole text.
 */
module Tags {
  import opened Wrappers
  import opened QtString

  /**
    One match of the tag pattern `<(0+)(?::(\d+))?>`: where it starts, how
    many zeros it holds (its minimum width) and the digits of its start
    number (empty when the optional group did not take part).
   */
  datatype Tag = Tag(start: nat, zeros: nat, digits: string) {

    ghost predicate Valid() {
      zeros >= 1 && AllDigits(digits)
    }

    /** The matched text itself. */
    function Text(): string {
      "<" + Zeros(zeros) + (if digits == [] then "" else ":" + digits) + ">"
    }

    /** The position just past the matched text (TextLayout gives its length). */
    function End(): nat {
      start + zeros + 2 + (if digits == [] then 0 else 1 + |digits|)
    }
  }

  /** The number of consecutive '0' characters starting at position i. */
  function ZeroRun(s: string, i: nat): (n: nat)
    requires i <= |s|
    ensures i + n <= |s|
    ensures forall k :: i <= k < i + n ==> s[k] == '0'
    ensures i + n < |s| ==> s[i + n] != '0'
    decreases |s| - i
  {
    if i < |s| && s[i] == '0' then 1 + ZeroRun(s, i + 1) else 0
  }

  /** The number of consecutive ASCII digits starting at position i. */
  function DigitRun(s: string, i: nat): (n: nat)
    requires i <= |s|
    ensures i + n <= |s|
    ensures forall k :: i <= k < i + n ==> IsDigit(s[k])
    ensures i + n < |s| ==> !IsDigit(s[i + n])
    decreases |s| - i
  {
    if i < |s| && IsDigit(s[i]) then 1 + DigitRun(s, i + 1) else 0
  }

  /**
    The match of the tag pattern that starts at position i, if any. Both
    runs are greedy, and backtracking could not help: a shorter run of zeros
    is followed by another '0', a shorter run of digits by another digit,
    and neither is the ':' or '>' the pattern needs next.
   */
  function TagAt(s: string, i: nat): (t: Option<Tag>)
    ensures t.Some? ==> t.value.Valid() && t.value.start == i && t.value.End() <= |s|
  {
    if i < |s| && s[i] == '<' then
      var z := ZeroRun(s, i + 1);
      var j := i + 1 + z;
      if z == 0 || j >= |s| then None
      else if s[j] == '>' then Some(Tag(i, z, ""))
      else if s[j] == ':' then
        var d := DigitRun(s, j + 1);
        var e := j + 1 + d;
        if d == 0 || e >= |s| || s[e] != '>' then None
        else Some(Tag(i, z, s[j + 1..e]))
      else None
    else None
  }

  /** The leftmost tag starting at or after position p: the next match of a global match. */
  function NextTag(s: string, p: nat): (t: Option<Tag>)
    ensures t.Some? ==> p <= t.value.start && TagAt(s, t.value.start) == t
    decreases |s| - p
  {
    if p >= |s| then None
    else if TagAt(s, p).Some? then TagAt(s, p)
    else NextTag(s, p + 1)
  }

  /** All matches from position p on, left to right, each search resuming where the last match ended. */
  function TagsFrom(s: string, p: nat): (r: seq<Tag>)
    requires p <= |s|
    ensures forall t :: t in r ==> t.Valid() && p <= t.start && t.End() <= |s|
    decreases |s| - p
  {
    match NextTag(s, p)
    case None => []
    case Some(t) => [t] + TagsFrom(s, t.End())
  }

  /** The start number of a tag: its digits read by toInt, or 1 when it has none. */
  function StartNumber(t: Tag): (n: nat)
    requires t.Valid()
    ensures t.digits == [] ==> n == 1
    ensures t.digits != [] ==> n == if DigitsValue(t.digits) <= MaxInt then DigitsValue(t.digits) else 0
  {
    if t.digits == [] then 1
    else
      ToIntOfDigits(t.digits);
      ToInt(t.digits)
  }

  /**
    What a tag becomes in the file at `fileIndex`: the number
    start + fileIndex in base 10, padded on the left with '0' to as many
    characters as the tag has zeros, and never cut to that width.
   */
  function Render(t: Tag, fileIndex: nat): (r: string)
    requires t.Valid()
    ensures AllDigits(r) && |r| >= t.zeros
    ensures DigitsValue(r) == StartNumber(t) + fileIndex
    ensures |r| == t.zeros || (|r| > 1 ==> r[0] != '0')
  {
    var digits := NatToDecimal(StartNumber(t) + fileIndex);
    if |digits| < t.zeros then
      LeadingZerosValue(t.zeros - |digits|, digits);
      ZeroPadded(digits, t.zeros)
    else
      ZeroPadded(digits, t.zeros)
  }

  /**
    The text from position p on with every tag replaced by its rendering,
    in one left-to-right pass: text between tags is copied as it is, and
    the scan resumes after each tag, so rendered digits are never scanned.
   */
  function ExpandFrom(s: string, p: nat, fileIndex: nat): string
    requires p <= |s|
    decreases |s| - p
  {
    match NextTag(s, p)
    case None => s[p..]
    case Some(t) => s[p..t.start] + Render(t, fileIndex) + ExpandFrom(s, t.End(), fileIndex)
  }

  /** Operation::replaceTags, as a function of the text and the 0-based file index. */
  function Expand(s: string, fileIndex: nat): string {
    ExpandFrom(s, 0, fileIndex)
  }

  /** Where the search for the k-th match of `tags` started: p, or the end of the match before it. */
  ghost function SearchStart(tags: seq<Tag>, p: nat, k: nat): nat
    requires k <= |tags|
  {
    if k == 0 then p else tags[k - 1].End()
  }

  predicate NoOpening(s: string) {
    forall k :: 0 <= k < |s| ==> s[k] != '<'
  }
}
