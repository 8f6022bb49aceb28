/**
  The closed set of file-name operations (src/operation.h) and what each one
  does to a file name (src/operation.cpp): the split of a name into base and
  extension, and the five `perform` bodies, which expand numbering tags
  (module Tags) in the text they add.
 */
module Operations {
  import opened Wrappers
  import opened QtString
  import opened Tags
  import opened TagScan

  /** ChangeCaseOperation::CaseType. */
  datatype CaseType = Lowercase | Uppercase | TitleCase

  /**
    The closed set of operations with their constructor arguments; the
    getters of each class are the fields of its variant.
   */
  datatype Operation =
    | Replace(pattern: string, replacement: string)
    | Prefix(prefix: string)
    | Suffix(suffix: string)
    | Insert(position: int, text: string)
    | ChangeExtension(newExtension: string)
    | ChangeCase(caseType: CaseType)

  /**
    The Qt text services the operations call, as parameters: whether a
    pattern compiles (QRegularExpression::isValid), QString::replace(regex,
    after) applied to a subject, and the case mapping that
    ChangeCaseOperation::perform applies to the whole file name (declared in
    src/operation.h, defined nowhere in the sources).
   */
  datatype TextServices = TextServices(
    isValid: string -> bool,
    replaceAll: (string, string, string) -> string,
    changeCase: (CaseType, string) -> string)

  /** Operation::getType: the identifier of each kind of operation. */
  function TypeName(op: Operation): (r: string)
    ensures r in {"replace", "prefix", "suffix", "insert", "change_ext", "change_case"}
  {
    match op
    case Replace(_, _) => "replace"
    case Prefix(_) => "prefix"
    case Suffix(_) => "suffix"
    case Insert(_, _) => "insert"
    case ChangeExtension(_) => "change_ext"
    case ChangeCase(_) => "change_case"
  }

  predicate SameKind(a: Operation, b: Operation) {
    || (a.Replace? && b.Replace?) || (a.Prefix? && b.Prefix?) || (a.Suffix? && b.Suffix?)
    || (a.Insert? && b.Insert?) || (a.ChangeExtension? && b.ChangeExtension?)
    || (a.ChangeCase? && b.ChangeCase?)
  }

  /** getType tells the kinds apart: two operations share an identifier exactly when they are of the same kind. */
  lemma TypeNameIdentifiesKind(a: Operation, b: Operation)
    ensures TypeName(a) == TypeName(b) <==> SameKind(a, b)
  {
    if TypeName(a) == TypeName(b) {
      var n := TypeName(a);
      assert n[0] == TypeName(b)[0];
      if n == "change_ext" || n == "change_case" {
        assert n[7] == TypeName(b)[7];
      }
    }
  }

  /**
    Where the extension starts: the last '.', provided it is not the first
    character (so ".bashrc" has no extension); -1 when there is none.
   */
  function ExtensionDot(name: string): (d: int)
    ensures d == -1 || (0 < d < |name| && name[d] == '.')
    ensures d > 0 ==> forall k :: d < k < |name| ==> name[k] != '.'
    ensures d == -1 ==> forall k :: 0 < k < |name| ==> name[k] != '.'
  {
    var i := LastIndexOf(name, '.');
    if i > 0 then i else -1
  }

  /** fileName.left(dotIndex), or the whole name when it has no extension. */
  function BaseOf(name: string): string {
    var d := ExtensionDot(name);
    if d > 0 then name[..d] else name
  }

  /** fileName.mid(dotIndex), or "" when the name has no extension. */
  function ExtOf(name: string): string {
    var d := ExtensionDot(name);
    if d > 0 then name[d..] else ""
  }

  predicate NoDot(s: string) {
    forall k :: 0 <= k < |s| ==> s[k] != '.'
  }

  /**
    Every name is its base followed by its extension; an extension is a '.'
    and dot-free text after a non-empty base, and a name without one has no
    '.' past its first character.
   */
  lemma SplitName(name: string)
    ensures BaseOf(name) + ExtOf(name) == name
    ensures ExtOf(name) != [] ==> ExtOf(name)[0] == '.' && NoDot(ExtOf(name)[1..]) && BaseOf(name) != []
  {
    var d := ExtensionDot(name);
    if d > 0 {
      var e := ExtOf(name);
      forall k | 0 <= k < |e[1..]| ensures e[1..][k] != '.' {
        assert e[1..][k] == name[d + 1 + k];
      }
    }
  }

  /** A non-empty base followed by '.' and dot-free text splits back into exactly those parts. */
  lemma ExtensionAfter(name: string, base: string, x: string)
    requires base != [] && NoDot(x) && name == base + "." + x
    ensures BaseOf(name) == base
    ensures ExtOf(name) == "." + x
  {
    var i := LastIndexOf(name, '.');
    assert name[|base|] == '.';
    assert i == |base|;
    assert name[..i] == base;
    assert name[i..] == "." + x;
  }

  /** A name has no extension exactly when it has no '.' past its first character. */
  lemma NoExtension(name: string)
    ensures ExtOf(name) == [] <==> forall k :: 0 < k < |name| ==> name[k] != '.'
    ensures ExtOf(name) == [] ==> BaseOf(name) == name
  {
  }

  /**
    ReplaceOperation::perform: with a valid pattern, every match in the base
    name is replaced by the tag-expanded replacement and the extension is
    put back as it was; an invalid pattern leaves the name alone.
   */
  function PerformReplace(pattern: string, replacement: string, name: string, fileIndex: nat, qt: TextServices): (r: string)
    ensures !qt.isValid(pattern) ==> r == name
    ensures qt.isValid(pattern) ==>
      r == qt.replaceAll(BaseOf(name), pattern, Expand(replacement, fileIndex)) + ExtOf(name)
  {
    if qt.isValid(pattern) then
      var after := Expand(replacement, fileIndex);
      var d := ExtensionDot(name);
      if d > 0 then qt.replaceAll(name[..d], pattern, after) + name[d..]
      else qt.replaceAll(name, pattern, after)
    else name
  }

  /** PrefixOperation::perform: the expanded prefix, then the name. */
  function PerformPrefix(prefix: string, name: string, fileIndex: nat): (r: string)
    ensures |r| == |Expand(prefix, fileIndex)| + |name|
    ensures r[..|Expand(prefix, fileIndex)|] == Expand(prefix, fileIndex)
    ensures r[|r| - |name|..] == name
  {
    Expand(prefix, fileIndex) + name
  }

  /** SuffixOperation::perform: the expanded suffix goes just before the extension, or at the end. */
  function PerformSuffix(suffix: string, name: string, fileIndex: nat): (r: string)
    ensures |r| == |name| + |Expand(suffix, fileIndex)|
    ensures r == BaseOf(name) + Expand(suffix, fileIndex) + ExtOf(name)
  {
    var e := Expand(suffix, fileIndex);
    var d := ExtensionDot(name);
    SplitName(name);
    if d > 0 then name[..d] + e + name[d..] else name + e
  }

  /** The position clamped into [0, n]. */
  function Clamp(position: int, n: nat): (p: nat)
    ensures p <= n
    ensures 0 <= position <= n ==> p == position
    ensures position < 0 ==> p == 0
    ensures position > n ==> p == n
  {
    if position < 0 then 0 else if position > n then n else position
  }

  /**
    InsertOperation::perform: the expanded text goes into the base name at
    the position clamped to the base, and the extension is put back.
   */
  function PerformInsert(position: int, text: string, name: string, fileIndex: nat): (r: string)
    ensures |r| == |name| + |Expand(text, fileIndex)|
    ensures var base, p := BaseOf(name), Clamp(position, |BaseOf(name)|);
      r == base[..p] + Expand(text, fileIndex) + base[p..] + ExtOf(name)
  {
    var e := Expand(text, fileIndex);
    var d := ExtensionDot(name);
    var base := if d > 0 then name[..d] else name;
    var ext := if d > 0 then name[d..] else "";
    var pos := Clamp(position, |base|);
    SplitName(name);
    base[..pos] + e + base[pos..] + ext
  }

  /** The text ChangeExtensionOperation appends: the new extension, with a '.' in front when it lacks one. */
  function DottedExtension(newExtension: string): (r: string)
    ensures newExtension == [] <==> r == []
    ensures r != [] ==> r[0] == '.' && (r == newExtension || r == "." + newExtension)
  {
    if newExtension == [] then ""
    else if newExtension[0] == '.' then newExtension
    else "." + newExtension
  }

  /**
    ChangeExtensionOperation::perform: the old extension is dropped (a
    leading dot is not one) and the new one appended; no tags are expanded.
   */
  function PerformChangeExtension(newExtension: string, name: string): (r: string)
    ensures r == BaseOf(name) + DottedExtension(newExtension)
  {
    var d := ExtensionDot(name);
    var result := if d > 0 then name[..d] else name;
    result + DottedExtension(newExtension)
  }

  /**
    Operation::perform, dispatched on the kind of operation. The result
    depends on nothing but the operation, the name and the file index (and
    the text services). change_case hands the whole name to the case
    mapping, which may change the extension too. Every other operation but
    change_ext keeps the old extension at the end of the name, and
    change_ext keeps the base name at its start.
   */
  function Perform(op: Operation, name: string, fileIndex: nat, qt: TextServices): (r: string)
    ensures !op.ChangeExtension? && !op.ChangeCase? ==> EndsWith(r, ExtOf(name))
    ensures op.ChangeExtension? ==> StartsWith(r, BaseOf(name))
  {
    match op
    case Replace(pattern, replacement) =>
      ReplaceKeepsExtension(pattern, replacement, name, fileIndex, qt);
      PerformReplace(pattern, replacement, name, fileIndex, qt)
    case Prefix(prefix) =>
      NameEndsWithExtension(name);
      EndsWithTransitive(PerformPrefix(prefix, name, fileIndex), name, ExtOf(name));
      PerformPrefix(prefix, name, fileIndex)
    case Suffix(suffix) =>
      ConcatEndsWith(BaseOf(name) + Expand(suffix, fileIndex), ExtOf(name));
      PerformSuffix(suffix, name, fileIndex)
    case Insert(position, text) =>
      var base, p := BaseOf(name), Clamp(position, |BaseOf(name)|);
      ConcatEndsWith(base[..p] + Expand(text, fileIndex) + base[p..], ExtOf(name));
      PerformInsert(position, text, name, fileIndex)
    case ChangeExtension(newExtension) =>
      ConcatStartsWith(BaseOf(name), DottedExtension(newExtension));
      PerformChangeExtension(newExtension, name)
    case ChangeCase(caseType) =>
      qt.changeCase(caseType, name)
  }

  predicate StartsWith(r: string, x: string) {
    |x| <= |r| && r[..|x|] == x
  }

  predicate EndsWith(r: string, x: string) {
    |x| <= |r| && r[|r| - |x|..] == x
  }

  lemma ConcatStartsWith(a: string, b: string)
    ensures StartsWith(a + b, a)
  {
    assert (a + b)[..|a|] == a;
  }

  lemma ConcatEndsWith(a: string, b: string)
    ensures EndsWith(a + b, b)
  {
    assert (a + b)[|a|..] == b;
  }

  lemma EndsWithTransitive(r: string, m: string, x: string)
    requires EndsWith(r, m) && EndsWith(m, x)
    ensures EndsWith(r, x)
  {
    assert r[|r| - |x|..] == r[|r| - |m|..][|m| - |x|..];
  }

  lemma NameEndsWithExtension(name: string)
    ensures EndsWith(name, ExtOf(name))
  {
    SplitName(name);
    ConcatEndsWith(BaseOf(name), ExtOf(name));
  }

  /** Replace never touches the extension: it is still the end of the result. */
  lemma ReplaceKeepsExtension(pattern: string, replacement: string, name: string, fileIndex: nat, qt: TextServices)
    ensures var r := PerformReplace(pattern, replacement, name, fileIndex, qt);
      |ExtOf(name)| <= |r| && r[|r| - |ExtOf(name)|..] == ExtOf(name)
  {
    SplitName(name);
  }

  /** Text put in front of a name with an extension leaves that extension in place. */
  lemma ExtensionUnderPrefix(front: string, name: string)
    requires ExtOf(name) != []
    ensures ExtOf(front + name) == ExtOf(name)
    ensures BaseOf(front + name) == front + BaseOf(name)
  {
    SplitName(name);
    Dotted(front, BaseOf(name), ExtOf(name), front + name);
    ExtensionAfter(front + name, front + BaseOf(name), ExtOf(name)[1..]);
  }

  /** Dot-free text put between the base and the extension joins the base. */
  lemma ExtensionUnderSuffix(name: string, back: string)
    requires ExtOf(name) != [] && NoDot(back)
    ensures ExtOf(BaseOf(name) + back + ExtOf(name)) == ExtOf(name)
    ensures BaseOf(BaseOf(name) + back + ExtOf(name)) == BaseOf(name) + back
  {
    SplitName(name);
    Dotted(BaseOf(name), back, ExtOf(name), BaseOf(name) + back + ExtOf(name));
    ExtensionAfter(BaseOf(name) + back + ExtOf(name), BaseOf(name) + back, ExtOf(name)[1..]);
  }

  /** a, b and an extension ext in a row: the extension's '.' then the rest of it. */
  lemma Dotted(a: string, b: string, ext: string, joined: string)
    requires ext != [] && ext[0] == '.' && (joined == a + (b + ext) || joined == a + b + ext)
    ensures joined == (a + b) + "." + ext[1..] && ext == "." + ext[1..]
  {
    assert ext == "." + ext[1..];
    assert a + (b + ext) == (a + b) + ext;
  }

  /** Prefixing keeps an extension: the last dot only moves right. */
  lemma PrefixKeepsExtension(prefix: string, name: string, fileIndex: nat)
    requires ExtOf(name) != []
    ensures ExtOf(PerformPrefix(prefix, name, fileIndex)) == ExtOf(name)
    ensures BaseOf(PerformPrefix(prefix, name, fileIndex)) == Expand(prefix, fileIndex) + BaseOf(name)
  {
    ExtensionUnderPrefix(Expand(prefix, fileIndex), name);
  }

  /**
    A suffix without a '.' lands at the end of the base name: the new name
    splits into the old base plus the suffix, and the old extension.
   */
  lemma SuffixExtendsBase(suffix: string, name: string, fileIndex: nat)
    requires ExtOf(name) != [] && NoDot(Expand(suffix, fileIndex))
    ensures BaseOf(PerformSuffix(suffix, name, fileIndex)) == BaseOf(name) + Expand(suffix, fileIndex)
    ensures ExtOf(PerformSuffix(suffix, name, fileIndex)) == ExtOf(name)
  {
    ExtensionUnderSuffix(name, Expand(suffix, fileIndex));
  }

  /** Inserting text that expands to nothing gives the name back. */
  lemma InsertNothing(position: int, text: string, name: string, fileIndex: nat)
    requires Expand(text, fileIndex) == []
    ensures PerformInsert(position, text, name, fileIndex) == name
  {
    SplitName(name);
    InsertEmpty(BaseOf(name), Clamp(position, |BaseOf(name)|), Expand(text, fileIndex), ExtOf(name));
  }

  lemma InsertEmpty<T>(base: seq<T>, p: nat, e: seq<T>, ext: seq<T>)
    requires p <= |base| && e == []
    ensures base[..p] + e + base[p..] + ext == base + ext
  {
    assert base[..p] + base[p..] == base;
  }

  /** Inserting at or before the start is prefixing. */
  lemma InsertAtStartIsPrefix(position: int, text: string, name: string, fileIndex: nat)
    requires position <= 0
    ensures PerformInsert(position, text, name, fileIndex) == PerformPrefix(text, name, fileIndex)
  {
    SplitName(name);
    InsertFront(BaseOf(name), Expand(text, fileIndex), ExtOf(name));
  }

  lemma InsertFront<T>(base: seq<T>, e: seq<T>, ext: seq<T>)
    ensures base[..0] + e + base[0..] + ext == e + (base + ext)
  {
    assert base[..0] == [] && base[0..] == base;
  }

  /** Inserting at or past the end of the base name is adding a suffix. */
  lemma InsertAtEndIsSuffix(position: int, text: string, name: string, fileIndex: nat)
    requires position >= |BaseOf(name)|
    ensures PerformInsert(position, text, name, fileIndex) == PerformSuffix(text, name, fileIndex)
  {
    var base := BaseOf(name);
    assert base[..|base|] == base && base[|base|..] == [];
  }

  /** An empty new extension just drops the old one. */
  lemma ChangeExtensionToNothing(name: string)
    ensures PerformChangeExtension("", name) == BaseOf(name)
  {
  }

  /**
    The new extension, given with or without its leading dot, is what the
    result then has, after the same base name.
   */
  lemma ChangeExtensionSets(newExtension: string, name: string)
    requires name != [] && newExtension != [] && NoDot(DottedExtension(newExtension)[1..])
    ensures BaseOf(PerformChangeExtension(newExtension, name)) == BaseOf(name)
    ensures ExtOf(PerformChangeExtension(newExtension, name)) == DottedExtension(newExtension)
  {
    SplitName(name);
    var dotted := DottedExtension(newExtension);
    var rest := dotted[1..];
    assert dotted == "." + rest;
    assert BaseOf(name) != [] by {
      if ExtOf(name) == [] { assert BaseOf(name) == name; }
    }
    var changed := PerformChangeExtension(newExtension, name);
    assert changed == BaseOf(name) + "." + rest;
    ExtensionAfter(changed, BaseOf(name), rest);
  }

  /** Changing the extension and then changing it back to the old one restores the name. */
  lemma ChangeExtensionRoundTrip(newExtension: string, name: string)
    requires name != [] && newExtension != [] && NoDot(DottedExtension(newExtension)[1..])
    ensures PerformChangeExtension(ExtOf(name), PerformChangeExtension(newExtension, name)) == name
  {
    ChangeExtensionSets(newExtension, name);
    SplitName(name);
  }

  /** A dot file keeps its whole name: ".bashrc" becomes ".bashrc.txt". */
  lemma ChangeExtensionOfDotFile()
    ensures PerformChangeExtension("txt", ".bashrc") == ".bashrc.txt"
  {
    NoExtension(".bashrc");
  }

  /** "a.jpg" becomes "a.txt": the dot is added to an extension given without one. */
  lemma ChangeExtensionExample()
    ensures PerformChangeExtension("txt", "a.jpg") == "a.txt"
  {
    assert "a.jpg" == "a" + "." + "jpg";
    ExtensionAfter("a.jpg", "a", "jpg");
    assert DottedExtension("txt") == ".txt";
  }

  /** An extension given with its leading dot gives the same name as without it: no second dot is added. */
  lemma ChangeExtensionDotOptional(newExtension: string, name: string)
    requires newExtension != [] && newExtension[0] != '.'
    ensures PerformChangeExtension("." + newExtension, name) == PerformChangeExtension(newExtension, name)
  {
  }

  /**
    Changing "a.jpg" to "txt" and then to ".jpg" gives "a.jpg" back, an
    instance of ChangeExtensionRoundTrip: the old extension, given with its
    dot, is used as it is.
   */
  lemma ChangeExtensionBackExample()
    ensures PerformChangeExtension(".jpg", PerformChangeExtension("txt", "a.jpg")) == "a.jpg"
  {
    assert "a.jpg" == "a" + "." + "jpg";
    ExtensionAfter("a.jpg", "a", "jpg");
    ChangeExtensionRoundTrip("txt", "a.jpg");
  }
}
