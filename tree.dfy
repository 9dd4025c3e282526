/** The parse tree the regex compilers walk.  Each constructor carries exactly
    what the compilers ask of the corresponding parser node: its children in
    order, its flags, and the text of its character tokens. */
module RegexTree {

  datatype Option<T> = None | Some(value: T)

  /** A `char` / `charInGroup` node: a plain character or a `\c` escape. */
  datatype CharToken = Plain(c: char) | Escaped(c: char)
  {
    /** The node's text as the parser returns it. */
    function Text(): (t: string)
      ensures |t| >= 1 && t[|t| - 1] == c
    {
      match this
      case Plain(c) => [c]
      case Escaped(c) => ['\\', c]
    }
  }

  /** The six `characterClass` alternatives (`\w \W \d \D \s \S`). */
  datatype ClassKind =
    | AnyWord | AnyWordInverted
    | AnyDecimalDigit | AnyDecimalDigitInverted
    | AnyBlank | AnyBlankInverted
  {
    /** The class letter, i.e. the class node's text without its backslash. */
    function Letter(): char
    {
      match this
      case AnyWord => 'w'
      case AnyWordInverted => 'W'
      case AnyDecimalDigit => 'd'
      case AnyDecimalDigitInverted => 'D'
      case AnyBlank => 's'
      case AnyBlankInverted => 'S'
    }
  }

  /** A member of a `[...]` character group. */
  datatype CharacterGroupItem =
    | CharInGroup(token: CharToken)
    | ClassInGroup(kind: ClassKind)
    | CharacterRange(lo: CharToken, hi: CharToken)

  /** A `single` node. */
  datatype Single =
    | CharSingle(token: CharToken)
    | ClassSingle(kind: ClassKind)
    | AnyCharacter
    | CharacterGroup(negated: bool, items: seq<CharacterGroupItem>)

  datatype AnchorKind = StartOfString | EndOfString | WordBoundary | NonWordBoundary

  /** `{lower}`, `{lower,}` and `{lower,upper}`: `delimiter` says whether the
      comma is present, `upper` whether an upper bound follows it. */
  datatype QuantifierType =
    | ZeroOrOne
    | ZeroOrMore
    | OneOrMore
    | RangeQuantifier(lower: nat, delimiter: bool, upper: Option<nat>)

  datatype Quantifier = Quantifier(qtype: QuantifierType, lazy: bool)

  /** `regex`: the alternatives of an alternation. */
  datatype Regex = Regex(expressions: seq<Expression>)

  /** `expression`: a sequence of items. */
  datatype Expression = Expression(items: seq<ExpressionItem>)

  /** `expressionItem`: a normal item with an optional quantifier, or an anchor. */
  datatype ExpressionItem =
    | Item(normal: NormalItem, quantifier: Option<Quantifier>)
    | AnchorItem(anchor: AnchorKind)

  /** `normalItem`: a single, or a parenthesised group. */
  datatype NormalItem =
    | SingleItem(single: Single)
    | Group(nonCapturing: bool, regex: Regex)

  /** The characters a character-group member can set in a 129-slot table
      stay inside the table: as a signed `char` a character of 128 or more
      would be a negative index, so the members' characters are below 128. */
  predicate TokenInTable(t: CharToken)
  {
    (t.c as int) < 128 && (t.Text()[0] as int) < 128
  }

  predicate GroupItemInTable(i: CharacterGroupItem)
  {
    match i
    case CharInGroup(t) => TokenInTable(t)
    case ClassInGroup(_) => true
    case CharacterRange(lo, hi) => TokenInTable(lo) && TokenInTable(hi)
  }

  predicate SingleInTable(s: Single)
  {
    s.CharacterGroup? ==> forall k :: 0 <= k < |s.items| ==> GroupItemInTable(s.items[k])
  }

  /** Every character group anywhere in the tree fits the 129-slot table. */
  predicate RegexInTable(r: Regex)
    decreases r, 3
  {
    forall k :: 0 <= k < |r.expressions| ==> ExpressionInTable(r.expressions[k])
  }

  predicate ExpressionInTable(e: Expression)
    decreases e, 2
  {
    forall k :: 0 <= k < |e.items| ==> ItemInTable(e.items[k])
  }

  predicate ItemInTable(ei: ExpressionItem)
    decreases ei, 1
  {
    ei.Item? ==> NormalInTable(ei.normal)
  }

  predicate NormalInTable(ni: NormalItem)
    decreases ni, 0
  {
    match ni
    case SingleItem(s) => SingleInTable(s)
    case Group(_, r) => RegexInTable(r)
  }

  /** The tree holds no anchor item anywhere (the earlier compiler has no
      anchor case and dereferences the missing normal item). */
  predicate RegexAnchorFree(r: Regex)
    decreases r, 3
  {
    forall k :: 0 <= k < |r.expressions| ==> ExpressionAnchorFree(r.expressions[k])
  }

  predicate ExpressionAnchorFree(e: Expression)
    decreases e, 2
  {
    forall k :: 0 <= k < |e.items| ==> ItemAnchorFree(e.items[k])
  }

  predicate ItemAnchorFree(ei: ExpressionItem)
    decreases ei, 1
  {
    ei.Item? && NormalAnchorFree(ei.normal)
  }

  predicate NormalAnchorFree(ni: NormalItem)
    decreases ni, 0
  {
    ni.Group? ==> RegexAnchorFree(ni.regex)
  }
}
