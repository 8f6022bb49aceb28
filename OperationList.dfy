/**
  The ordered list of operation cards of OperationListWidget
  (src/operationlistwidget.cpp): how the cards become operations, and how
  cards are added, removed and moved up or down.
 */
module OperationList {
  import opened Wrappers
  import opened QtString
  import opened Operations

  // ---------------------------------------------------------------------
  // From card fields to an operation
  // ---------------------------------------------------------------------

  /** The case choice of a change_case card; anything unknown means lowercase. */
  function ParseCaseType(caseName: string): (r: CaseType)
    ensures caseName in {"lowercase", "uppercase", "titlecase"} ==> CaseName(r) == caseName
    ensures caseName !in {"lowercase", "uppercase", "titlecase"} ==> r == Lowercase
  {
    if caseName == "lowercase" then Lowercase
    else if caseName == "uppercase" then Uppercase
    else if caseName == "titlecase" then TitleCase
    else Lowercase
  }

  function CaseName(c: CaseType): string {
    match c
    case Lowercase => "lowercase"
    case Uppercase => "uppercase"
    case TitleCase => "titlecase"
  }

  predicate KnownType(operationType: string) {
    operationType in {"replace", "prefix", "suffix", "insert", "change_ext", "change_case"}
  }

  /**
    The dispatch of getOperations for one card: its type string picks the
    kind, its value and replacement fields fill in the arguments (an insert
    position is the value read by toInt), and an unknown type gives none.
   */
  function CardOperation(operationType: string, value: string, replacement: string, caseName: string): (op: Option<Operation>)
    ensures op.Some? <==> KnownType(operationType)
    ensures op.Some? ==> TypeName(op.value) == operationType
  {
    if operationType == "replace" then Some(Replace(value, replacement))
    else if operationType == "prefix" then Some(Prefix(value))
    else if operationType == "suffix" then Some(Suffix(value))
    else if operationType == "insert" then Some(Insert(ToInt(value), replacement))
    else if operationType == "change_ext" then Some(ChangeExtension(value))
    else if operationType == "change_case" then Some(ChangeCase(ParseCaseType(caseName)))
    else None
  }

  /** Card fields that describe an operation: its type identifier, its value, its replacement and its case. */
  function CardFields(op: Operation): (string, string, string, string) {
    match op
    case Replace(pattern, replacement) => ("replace", pattern, replacement, "")
    case Prefix(prefix) => ("prefix", prefix, "", "")
    case Suffix(suffix) => ("suffix", suffix, "", "")
    case Insert(position, text) => ("insert", IntToString(position), text, "")
    case ChangeExtension(newExtension) => ("change_ext", newExtension, "", "")
    case ChangeCase(caseType) => ("change_case", "", "", CaseName(caseType))
  }

  /**
    getType and the getters agree with getOperations: a card filled in from
    an operation's type and getters gives back that very operation.
   */
  lemma CardRoundTrip(op: Operation)
    requires op.Insert? ==> MinInt <= op.position <= MaxInt
    ensures CardFields(op).0 == TypeName(op)
    ensures var (t, v, r, c) := CardFields(op); CardOperation(t, v, r, c) == Some(op)
  {
    if op.Insert? {
      ToIntOfIntToString(op.position);
    }
  }

  /**
    A non-numeric insert position reads as 0, so the text goes to the start:
    a position holding a character that is no digit, sign or white space,
    or holding no digit at all, gives Insert(0, text).
   */
  lemma InsertPositionNotNumeric(position: string, text: string)
    requires (exists k :: 0 <= k < |position| && !IsDigit(position[k]) && !IsSpace(position[k])
                                && position[k] != '+' && position[k] != '-')
             || (forall k :: 0 <= k < |position| ==> !IsDigit(position[k]))
    ensures CardOperation("insert", position, text, "") == Some(Insert(0, text))
  {
    if forall k :: 0 <= k < |position| ==> !IsDigit(position[k]) {
      ToIntWithoutDigits(position);
    } else {
      var k :| 0 <= k < |position| && !IsDigit(position[k]) && !IsSpace(position[k])
               && position[k] != '+' && position[k] != '-';
      ToIntStrayCharacter(position, k);
    }
  }

  /**
    Every position text that toInt cannot read as an in-range number puts
    the text at the start: no split of it into white space, a number and
    white space gives a value in the int range.
   */
  lemma InsertPositionMalformed(position: string, text: string)
    requires forall a, b :: NumberAt(position, a, b) ==> !(MinInt <= NumberValue(position[a..b]) <= MaxInt)
    ensures CardOperation("insert", position, text, "") == Some(Insert(0, text))
  {
    if ToInt(position) != 0 {
      ToIntNonZeroIsWellFormed(position);
      assert false;
    }
  }

  /** "abc" as an insert position puts the text at the start. */
  lemma InsertPositionExample(text: string)
    ensures CardOperation("insert", "abc", text, "") == Some(Insert(0, text))
  {
    InsertPositionNotNumeric("abc", text);
  }

  // ---------------------------------------------------------------------
  // QList operations on the card list
  // ---------------------------------------------------------------------

  /** QList::indexOf: the first position of x, or -1. */
  function IndexOfItem<T(==)>(s: seq<T>, x: T): (r: int)
    ensures -1 <= r < |s|
    ensures r >= 0 ==> s[r] == x && forall k :: 0 <= k < r ==> s[k] != x
    ensures r < 0 ==> x !in s
  {
    if |s| == 0 then -1
    else if s[0] == x then 0
    else
      var r := IndexOfItem(s[1..], x);
      if r < 0 then -1 else r + 1
  }

  /** QList::swapItemsAt. */
  function Swap<T>(s: seq<T>, i: nat, j: nat): (r: seq<T>)
    requires i < |s| && j < |s|
    ensures |r| == |s| && r[i] == s[j] && r[j] == s[i]
    ensures forall k :: 0 <= k < |s| && k != i && k != j ==> r[k] == s[k]
  {
    s[i := s[j]][j := s[i]]
  }

  /** onRemoveOperation on the list: the first occurrence of x goes, if there is one. */
  function Removed<T(==)>(s: seq<T>, x: T): (r: seq<T>)
    ensures x !in s ==> r == s
    ensures x in s ==> |r| == |s| - 1
    ensures forall k :: 0 <= k < |r| ==> r[k] == if x !in s || k < IndexOfItem(s, x) then s[k] else s[k + 1]
  {
    var i := IndexOfItem(s, x);
    if i >= 0 then
      assert x in s;
      var r := s[..i] + s[i + 1..];
      assert forall k :: 0 <= k < |r| ==> r[k] == if k < i then s[k] else s[k + 1];
      r
    else s
  }

  /** onMoveOperationUp on the list: x changes place with the item before it, unless it is first or absent. */
  function MovedUp<T(==)>(s: seq<T>, x: T): (r: seq<T>)
    ensures |r| == |s|
    ensures IndexOfItem(s, x) > 0 ==> r[IndexOfItem(s, x) - 1] == x && r[IndexOfItem(s, x)] == s[IndexOfItem(s, x) - 1]
    ensures forall k :: 0 <= k < |s| && k != IndexOfItem(s, x) && k != IndexOfItem(s, x) - 1 ==> r[k] == s[k]
    ensures IndexOfItem(s, x) <= 0 ==> r == s
  {
    var i := IndexOfItem(s, x);
    if i > 0 then Swap(s, i, i - 1) else s
  }

  /** onMoveOperationDown on the list: x changes place with the item after it, unless it is last or absent. */
  function MovedDown<T(==)>(s: seq<T>, x: T): (r: seq<T>)
    ensures |r| == |s|
    ensures 0 <= IndexOfItem(s, x) < |s| - 1 ==> r[IndexOfItem(s, x) + 1] == x && r[IndexOfItem(s, x)] == s[IndexOfItem(s, x) + 1]
    ensures forall k :: 0 <= k < |s| && k != IndexOfItem(s, x) && k != IndexOfItem(s, x) + 1 ==> r[k] == s[k]
    ensures IndexOfItem(s, x) < 0 || IndexOfItem(s, x) == |s| - 1 ==> r == s
  {
    var i := IndexOfItem(s, x);
    if i >= 0 && i < |s| - 1 then Swap(s, i, i + 1) else s
  }

  predicate Distinct<T(==)>(s: seq<T>) {
    forall i, j :: 0 <= i < j < |s| ==> s[i] != s[j]
  }

  /** Swapping two places keeps the same items. */
  lemma SwapPermutes<T>(s: seq<T>, i: nat, j: nat)
    requires i < |s| && j < |s|
    ensures multiset(Swap(s, i, j)) == multiset(s)
  {
    var t := s[i := s[j]];
    assert multiset(t) == multiset(s) - multiset{s[i]} + multiset{s[j]};
    assert multiset(t[j := s[i]]) == multiset(t) - multiset{t[j]} + multiset{s[i]};
  }

  /** Moving up or down keeps the same cards, with the same multiplicities. */
  lemma MovesPermute<T>(s: seq<T>, x: T)
    ensures multiset(MovedUp(s, x)) == multiset(s)
    ensures multiset(MovedDown(s, x)) == multiset(s)
  {
    MovedUpPermutes(s, x);
    MovedDownPermutes(s, x);
  }

  lemma MovedUpPermutes<T>(s: seq<T>, x: T)
    ensures multiset(MovedUp(s, x)) == multiset(s)
  {
    var i := IndexOfItem(s, x);
    if i > 0 {
      SwapPermutes(s, i, i - 1);
    }
  }

  lemma MovedDownPermutes<T>(s: seq<T>, x: T)
    ensures multiset(MovedDown(s, x)) == multiset(s)
  {
    var i := IndexOfItem(s, x);
    if i >= 0 && i < |s| - 1 {
      SwapPermutes(s, i, i + 1);
    }
  }

  /** Removing takes out exactly one x when there is one, and nothing otherwise. */
  lemma RemovedTakesOne<T>(s: seq<T>, x: T)
    ensures x in s ==> multiset(Removed(s, x)) == multiset(s) - multiset{x} && |Removed(s, x)| == |s| - 1
    ensures x !in s ==> Removed(s, x) == s
  {
    var i := IndexOfItem(s, x);
    if i >= 0 {
      assert s == s[..i] + [x] + s[i + 1..];
    }
  }

  /** In a list without repeats, a swap moves the first occurrence of an item to the other position. */
  lemma SwapMovesItem<T>(s: seq<T>, x: T, j: nat)
    requires Distinct(s) && 0 <= IndexOfItem(s, x) && j < |s|
    ensures IndexOfItem(Swap(s, IndexOfItem(s, x), j), x) == j
  {
    var i := IndexOfItem(s, x);
    var u := Swap(s, i, j);
    assert u[j] == x;
    forall k | 0 <= k < |u| && k != j ensures u[k] != x {
      if k == i {
        assert u[k] == s[j] && s[i] == x;
      } else {
        assert u[k] == s[k];
      }
    }
  }

  /** Moving a card up and then down again restores the list, when it could move up. */
  lemma UpThenDown<T>(s: seq<T>, x: T)
    requires Distinct(s) && IndexOfItem(s, x) > 0
    ensures MovedDown(MovedUp(s, x), x) == s
  {
    var i := IndexOfItem(s, x);
    SwapMovesItem(s, x, i - 1);
    assert Swap(Swap(s, i, i - 1), i - 1, i) == s;
  }

  /** Moving a card down and then up again restores the list, when it could move down. */
  lemma DownThenUp<T>(s: seq<T>, x: T)
    requires Distinct(s) && 0 <= IndexOfItem(s, x) < |s| - 1
    ensures MovedUp(MovedDown(s, x), x) == s
  {
    var i := IndexOfItem(s, x);
    SwapMovesItem(s, x, i + 1);
    assert Swap(Swap(s, i, i + 1), i + 1, i) == s;
  }

  /** The moves keep the cards distinct. */
  lemma MovesKeepDistinct<T>(s: seq<T>, x: T)
    requires Distinct(s)
    ensures Distinct(MovedUp(s, x)) && Distinct(MovedDown(s, x)) && Distinct(Removed(s, x))
  {
    var i := IndexOfItem(s, x);
    if i > 0 {
      SwapKeepsDistinct(s, i, i - 1);
    }
    if i >= 0 && i < |s| - 1 {
      SwapKeepsDistinct(s, i, i + 1);
    }
    RemovedKeepsDistinct(s, x);
  }

  lemma RemovedKeepsDistinct<T>(s: seq<T>, x: T)
    requires Distinct(s)
    ensures Distinct(Removed(s, x))
  {
    var r := Removed(s, x);
    forall a, b | 0 <= a < b < |r| ensures r[a] != r[b] {
      var a', b' := if x !in s || a < IndexOfItem(s, x) then a else a + 1, if x !in s || b < IndexOfItem(s, x) then b else b + 1;
      assert r[a] == s[a'] && r[b] == s[b'];
    }
  }

  lemma SwapKeepsDistinct<T>(s: seq<T>, i: nat, j: nat)
    requires i < |s| && j < |s| && Distinct(s)
    ensures Distinct(Swap(s, i, j))
  {
    var r := Swap(s, i, j);
    forall a, b | 0 <= a < b < |r| ensures r[a] != r[b] {
      var a' := if a == i then j else if a == j then i else a;
      var b' := if b == i then j else if b == j then i else b;
      assert r[a] == s[a'] && r[b] == s[b'];
    }
  }

  // ---------------------------------------------------------------------
  // The cards and the widget
  // ---------------------------------------------------------------------

  /** An operation card, as far as getOperations reads it. */
  class OperationCard {
    var operationType: string
    var operationValue: string
    var replacementValue: string
    var caseType: string

    /** A new card shows the first entry of its type list, "replace", with empty fields. */
    constructor()
      ensures operationType == "replace" && operationValue == "" && replacementValue == "" && caseType == ""
    {
      operationType := "replace";
      operationValue := "";
      replacementValue := "";
      caseType := "";
    }
  }

  function OperationOf(card: OperationCard): Option<Operation>
    reads card
  {
    CardOperation(card.operationType, card.operationValue, card.replacementValue, card.caseType)
  }

  /** The operations of the cards, in card order, one for each card of a known type. */
  function CardsToOperations(cards: seq<OperationCard>): seq<Operation>
    reads set c | c in cards
  {
    if cards == [] then []
    else
      var init := CardsToOperations(cards[..|cards| - 1]);
      match OperationOf(cards[|cards| - 1])
      case None => init
      case Some(op) => init + [op]
  }

  /** How many cards have a known type. */
  function KnownCount(cards: seq<OperationCard>): nat
    reads set c | c in cards
  {
    if cards == [] then 0
    else KnownCount(cards[..|cards| - 1]) + (if KnownType(cards[|cards| - 1].operationType) then 1 else 0)
  }

  /** Cards of unknown type are skipped and every other card gives one operation. */
  lemma {:induction false} OneOperationPerKnownCard(cards: seq<OperationCard>)
    ensures |CardsToOperations(cards)| == KnownCount(cards) <= |cards|
  {
    if cards != [] {
      OneOperationPerKnownCard(cards[..|cards| - 1]);
    }
  }

  /** The operations keep the order of the cards: those of a list split in two are those of the parts, in turn. */
  lemma {:induction false} OperationsInCardOrder(a: seq<OperationCard>, b: seq<OperationCard>)
    ensures CardsToOperations(a + b) == CardsToOperations(a) + CardsToOperations(b)
  {
    if b == [] {
      assert a + b == a;
    } else {
      var init := b[..|b| - 1];
      OperationsInCardOrder(a, init);
      assert (a + b)[..|a + b| - 1] == a + init;
    }
  }

  /** OperationListWidget: the ordered list of cards. */
  class OperationListWidget {
    var operationCards: seq<OperationCard>

    /** The list never holds the same card twice. */
    ghost predicate Valid()
      reads this
    {
      Distinct(operationCards)
    }

    constructor()
      ensures operationCards == [] && Valid()
    {
      operationCards := [];
    }

    /** getOperations: one operation per card of known type, in card order. */
    method GetOperations() returns (operations: seq<Operation>)
      ensures operations == CardsToOperations(operationCards)
    {
      operations := [];
      for k := 0 to |operationCards|
        invariant operations == CardsToOperations(operationCards[..k])
      {
        var card := operationCards[k];
        var op := CardOperation(card.operationType, card.operationValue, card.replacementValue, card.caseType);
        assert operationCards[..k + 1][..k] == operationCards[..k];
        if op.Some? {
          operations := operations + [op.value];
        }
      }
      assert operationCards[..|operationCards|] == operationCards;
    }

    /** onAddOperation: a new card goes at the end of the list. */
    method OnAddOperation() returns (card: OperationCard)
      modifies this
      ensures fresh(card) && operationCards == old(operationCards) + [card]
      ensures card.operationType == "replace" && card.operationValue == "" && card.replacementValue == ""
      ensures old(Valid()) ==> Valid()
    {
      card := new OperationCard();
      operationCards := operationCards + [card];
    }

    /** onRemoveOperation for the card that asked; a null sender or a card not in the list changes nothing. */
    method OnRemoveOperation(card: OperationCard?)
      modifies this
      ensures card == null ==> operationCards == old(operationCards)
      ensures card != null ==> operationCards == Removed(old(operationCards), card)
      ensures old(Valid()) ==> Valid()
    {
      if card == null {
        return;
      }
      var index := IndexOfItem(operationCards, card);
      if index >= 0 {
        if Valid() { RemovedKeepsDistinct(operationCards, card); }
        assert operationCards[..index] + operationCards[index + 1..] == Removed(operationCards, card);
        operationCards := operationCards[..index] + operationCards[index + 1..];
      }
    }

    /** onMoveOperationUp for the card that asked. */
    method OnMoveOperationUp(card: OperationCard?)
      modifies this
      ensures card == null ==> operationCards == old(operationCards)
      ensures card != null ==> operationCards == MovedUp(old(operationCards), card)
      ensures old(Valid()) ==> Valid()
    {
      if card == null {
        return;
      }
      var index := IndexOfItem(operationCards, card);
      if index > 0 {
        if Valid() { MovesKeepDistinct(operationCards, card); }
        operationCards := Swap(operationCards, index, index - 1);
      }
    }

    /** onMoveOperationDown for the card that asked. */
    method OnMoveOperationDown(card: OperationCard?)
      modifies this
      ensures card == null ==> operationCards == old(operationCards)
      ensures card != null ==> operationCards == MovedDown(old(operationCards), card)
      ensures old(Valid()) ==> Valid()
    {
      if card == null {
        return;
      }
      var index := IndexOfItem(operationCards, card);
      if index >= 0 && index < |operationCards| - 1 {
        if Valid() { MovesKeepDistinct(operationCards, card); }
        operationCards := Swap(operationCards, index, index + 1);
      }
    }
  }
}
