/** Flow-style YAML on comment-free tokens: the recursive-descent parser as functions,
    the grammar it accepts as a printer of concrete syntax, and the proof that the two
    agree in both directions, including the nesting limit and the duplicate-key check. */
module FlowGrammar {

  datatype Token =
    | String(value: string) | Number(value: string) | Bool(value: string) | Null(value: string)
    | Colon | Comma | LBrace | RBrace | LBracket | RBracket
    | Comment | Newline | EOF
    | Other  // indentation, dashes, anchors and the rest
  {
    predicate IsScalar() {
      String? || Number? || Bool? || Null?
    }
  }

  /** The parsed tree.  A mapping's children alternate keys and values. */
  datatype Node = Scalar(value: string) | Sequence(children: seq<Node>) | Mapping(children: seq<Node>)

  datatype Error = TooDeep | Unterminated | ExpectedKey | ExpectedColon | UnexpectedToken | DuplicateKey

  datatype Result = Ok(node: Node, rest: seq<Token>) | Err(error: Error)

  const MAX_DEPTH := 100

  // --- The parser.  Running out of tokens is seeing EOF.

  function SkipComma(ts: seq<Token>): (rest: seq<Token>)
    ensures |rest| <= |ts|
  {
    if ts != [] && ts[0] == Comma then ts[1..] else ts
  }

  /** The value position of a flow collection. */
  function ParseValue(ts: seq<Token>, depth: nat): (r: Result)
    ensures r.Ok? ==> |r.rest| < |ts|
    decreases |ts|, 1
  {
    if ts == [] then Err(UnexpectedToken)
    else if ts[0].IsScalar() then Ok(Scalar(ts[0].value), ts[1..])
    else if ts[0] == LBrace then ParseMapping(ts[1..], depth)
    else if ts[0] == LBracket then ParseSequence(ts[1..], depth)
    else Err(UnexpectedToken)
  }

  /** After the opening brace. */
  function ParseMapping(ts: seq<Token>, depth: nat): (r: Result)
    ensures r.Ok? ==> |r.rest| < |ts|
    decreases |ts|, 3
  {
    if depth > MAX_DEPTH then Err(TooDeep) else ParsePairs(ts, depth + 1, {}, [])
  }

  function ParsePairs(ts: seq<Token>, depth: nat, seen: set<string>, children: seq<Node>): (r: Result)
    ensures r.Ok? ==> |r.rest| < |ts|
    decreases |ts|, 2
  {
    if ts == [] then Err(Unterminated)
    else if ts[0] == RBrace then Ok(Mapping(children), ts[1..])
    else if !ts[0].String? then Err(ExpectedKey)
    else if |ts| < 2 || ts[1] != Colon then Err(ExpectedColon)
    else
      var key := ts[0].value;
      var value := ParseValue(ts[2..], depth);
      if value.Err? then value
      else if key in seen then Err(DuplicateKey)
      else ParsePairs(SkipComma(value.rest), depth, seen + {key}, children + [Scalar(key), value.node])
  }

  /** After the opening bracket. */
  function ParseSequence(ts: seq<Token>, depth: nat): (r: Result)
    ensures r.Ok? ==> |r.rest| < |ts|
    decreases |ts|, 3
  {
    if depth > MAX_DEPTH then Err(TooDeep) else ParseItems(ts, depth + 1, [])
  }

  function ParseItems(ts: seq<Token>, depth: nat, children: seq<Node>): (r: Result)
    ensures r.Ok? ==> |r.rest| < |ts|
    decreases |ts|, 2
  {
    if ts == [] then Err(Unterminated)
    else if ts[0] == RBracket then Ok(Sequence(children), ts[1..])
    else
      var value := ParseValue(ts, depth);
      if value.Err? then value else ParseItems(SkipComma(value.rest), depth, children + [value.node])
  }

  // --- The grammar: concrete syntax with every choice the parser tolerates, namely the
  // kind of each scalar and whether a comma follows each member.

  datatype Cst = CScalar(token: Token) | CSequence(items: Items) | CMapping(pairs: Pairs)

  datatype Items = NoItems | Item(item: Cst, comma: bool, more: Items)

  datatype Pairs = NoPairs | Pair(key: string, value: Cst, comma: bool, more: Pairs)

  function CommaThen(comma: bool, rest: seq<Token>): seq<Token> {
    if comma then [Comma] + rest else rest
  }

  /** The tokens of `c` followed by `rest`. */
  function Print(c: Cst, rest: seq<Token>): seq<Token> {
    match c
    case CScalar(token) => [token] + rest
    case CSequence(items) => [LBracket] + PrintItems(items, [RBracket] + rest)
    case CMapping(pairs) => [LBrace] + PrintPairs(pairs, [RBrace] + rest)
  }

  function PrintItems(items: Items, rest: seq<Token>): seq<Token> {
    match items
    case NoItems => rest
    case Item(item, comma, more) => Print(item, CommaThen(comma, PrintItems(more, rest)))
  }

  function PrintPairs(pairs: Pairs, rest: seq<Token>): seq<Token> {
    match pairs
    case NoPairs => rest
    case Pair(key, value, comma, more) =>
      [String(key), Colon] + Print(value, CommaThen(comma, PrintPairs(more, rest)))
  }

  function Tree(c: Cst): Node
    requires Proper(c)
    decreases c
  {
    match c
    case CScalar(token) => Scalar(token.value)
    case CSequence(items) => Sequence(TreeItems([], items))
    case CMapping(pairs) => Mapping(TreePairs([], pairs))
  }

  /** `before` followed by the trees of the items. */
  function TreeItems(before: seq<Node>, items: Items): seq<Node>
    requires ProperItems(items)
    decreases items
  {
    match items
    case NoItems => before
    case Item(item, _, more) => TreeItems(before + [Tree(item)], more)
  }

  function TreePairs(before: seq<Node>, pairs: Pairs): seq<Node>
    requires ProperPairs(pairs)
    decreases pairs
  {
    match pairs
    case NoPairs => before
    case Pair(key, value, _, more) => TreePairs(before + [Scalar(key), Tree(value)], more)
  }

  /** Scalars carry a scalar token. */
  predicate Proper(c: Cst) {
    match c
    case CScalar(token) => token.IsScalar()
    case CSequence(items) => ProperItems(items)
    case CMapping(pairs) => ProperPairs(pairs)
  }

  predicate ProperItems(items: Items) {
    match items
    case NoItems => true
    case Item(item, _, more) => Proper(item) && ProperItems(more)
  }

  predicate ProperPairs(pairs: Pairs) {
    match pairs
    case NoPairs => true
    case Pair(_, value, _, more) => Proper(value) && ProperPairs(more)
  }

  function KeySet(pairs: Pairs): set<string> {
    match pairs
    case NoPairs => {}
    case Pair(key, _, _, more) => {key} + KeySet(more)
  }

  /** No mapping at any level repeats a key. */
  predicate NoRepeatedKey(c: Cst) {
    match c
    case CScalar(_) => true
    case CSequence(items) => NoRepeatedKeyItems(items)
    case CMapping(pairs) => NoRepeatedKeyPairs(pairs)
  }

  predicate NoRepeatedKeyItems(items: Items) {
    match items
    case NoItems => true
    case Item(item, _, more) => NoRepeatedKey(item) && NoRepeatedKeyItems(more)
  }

  predicate NoRepeatedKeyPairs(pairs: Pairs) {
    match pairs
    case NoPairs => true
    case Pair(key, value, _, more) => key !in KeySet(more) && NoRepeatedKey(value) && NoRepeatedKeyPairs(more)
  }

  function Max(a: nat, b: nat): nat {
    if a < b then b else a
  }

  /** How many collections are nested inside one another. */
  function Levels(c: Cst): nat {
    match c
    case CScalar(_) => 0
    case CSequence(items) => 1 + LevelsItems(items)
    case CMapping(pairs) => 1 + LevelsPairs(pairs)
  }

  function LevelsItems(items: Items): nat {
    match items
    case NoItems => 0
    case Item(item, _, more) => Max(Levels(item), LevelsItems(more))
  }

  function LevelsPairs(pairs: Pairs): nat {
    match pairs
    case NoPairs => 0
    case Pair(_, value, _, more) => Max(Levels(value), LevelsPairs(more))
  }

  /** Fits below `depth` enclosing collections. */
  predicate Shallow(levels: nat, depth: nat) {
    levels == 0 || depth + levels <= MAX_DEPTH + 1
  }

  /** Each of the four kinds of scalar token is a value, whatever its text. */
  lemma ScalarKinds(value: string, rest: seq<Token>, depth: nat)
    ensures ParseValue([String(value)] + rest, depth) == Ok(Scalar(value), rest)
    ensures ParseValue([Number(value)] + rest, depth) == Ok(Scalar(value), rest)
    ensures ParseValue([Bool(value)] + rest, depth) == Ok(Scalar(value), rest)
    ensures ParseValue([Null(value)] + rest, depth) == Ok(Scalar(value), rest)
  {
    assert ([String(value)] + rest)[1..] == rest && ([Number(value)] + rest)[1..] == rest;
    assert ([Bool(value)] + rest)[1..] == rest && ([Null(value)] + rest)[1..] == rest;
  }

  /** Nothing else but an opening brace or bracket starts a value, and only text is a key. */
  lemma NothingElseStarts(ts: seq<Token>, depth: nat, seen: set<string>, children: seq<Node>)
    requires ts != []
    ensures ParseValue(ts, depth).Ok? ==>
              ts[0].String? || ts[0].Number? || ts[0].Bool? || ts[0].Null? || ts[0] == LBrace || ts[0] == LBracket
    ensures ParsePairs(ts, depth, seen, children).Ok? ==> ts[0] == RBrace || (|ts| > 2 && ts[0].String? && ts[1] == Colon)
  {
  }

  // --- Parsing what was printed

  /** Printed syntax is parsed back to its tree, leaving what follows, exactly when it is
      shallow enough and repeats no key; otherwise it is an error. */
  lemma {:induction false} ParsePrinted(c: Cst, rest: seq<Token>, depth: nat)
    requires Proper(c)
    ensures var r := ParseValue(Print(c, rest), depth);
            if Shallow(Levels(c), depth) && NoRepeatedKey(c) then r == Ok(Tree(c), rest) else r.Err?
    decreases c, 1
  {
    match c
    case CScalar(token) =>
    case CSequence(items) =>
      if depth <= MAX_DEPTH {
        ParsePrintedItems(items, rest, depth + 1, []);
      }
      assert Print(c, rest)[1..] == PrintItems(items, [RBracket] + rest);
    case CMapping(pairs) =>
      if depth <= MAX_DEPTH {
        ParsePrintedPairs(pairs, rest, depth + 1, {}, []);
      }
      assert Print(c, rest)[1..] == PrintPairs(pairs, [RBrace] + rest);
  }

  lemma {:induction false} ParsePrintedItems(items: Items, rest: seq<Token>, depth: nat, children: seq<Node>)
    requires ProperItems(items)
    ensures var r := ParseItems(PrintItems(items, [RBracket] + rest), depth, children);
            if Shallow(LevelsItems(items), depth) && NoRepeatedKeyItems(items)
            then r == Ok(Sequence(TreeItems(children, items)), rest)
            else r.Err?
    decreases items, 0
  {
    match items
    case NoItems =>
    case Item(item, comma, more) =>
      var tail := PrintItems(more, [RBracket] + rest);
      ParsePrinted(item, CommaThen(comma, tail), depth);
      PrintStarts(item, CommaThen(comma, tail));
      ItemsStart(more, [RBracket] + rest);
      assert SkipComma(CommaThen(comma, tail)) == tail;
      ParsePrintedItems(more, rest, depth, children + [Tree(item)]);
  }

  /** A value starts with neither a closing bracket nor a comma. */
  lemma PrintStarts(c: Cst, rest: seq<Token>)
    requires Proper(c)
    ensures Print(c, rest) != []
    ensures var t := Print(c, rest)[0]; t.IsScalar() || t == LBrace || t == LBracket
  {
  }

  lemma ItemsStart(items: Items, rest: seq<Token>)
    requires ProperItems(items) && rest != [] && rest[0] != Comma
    ensures PrintItems(items, rest) != [] && PrintItems(items, rest)[0] != Comma
  {
    if items.Item? {
      PrintStarts(items.item, CommaThen(items.comma, PrintItems(items.more, rest)));
    }
  }

  lemma {:induction false} ParsePrintedPairs(
    pairs: Pairs, rest: seq<Token>, depth: nat, seen: set<string>, children: seq<Node>)
    requires ProperPairs(pairs)
    ensures var r := ParsePairs(PrintPairs(pairs, [RBrace] + rest), depth, seen, children);
            if Shallow(LevelsPairs(pairs), depth) && NoRepeatedKeyPairs(pairs) && KeySet(pairs) !! seen
            then r == Ok(Mapping(TreePairs(children, pairs)), rest)
            else r.Err?
    decreases pairs, 0
  {
    match pairs
    case NoPairs =>
    case Pair(key, value, comma, more) =>
      var tail := PrintPairs(more, [RBrace] + rest);
      var ts := PrintPairs(pairs, [RBrace] + rest);
      ParsePrinted(value, CommaThen(comma, tail), depth);
      assert ts[2..] == Print(value, CommaThen(comma, tail));
      assert SkipComma(CommaThen(comma, tail)) == tail;
      ParsePrintedPairs(more, rest, depth, seen + {key}, children + [Scalar(key), Tree(value)]);
  }

  // --- What is parsed was printed

  /** Every accepted input is the print of some concrete syntax followed by the unread
      rest; that syntax is shallow enough, repeats no key and has the returned tree. */
  lemma {:induction false} ParsedIsPrinted(ts: seq<Token>, depth: nat) returns (c: Cst)
    requires ParseValue(ts, depth).Ok?
    ensures Proper(c) && ts == Print(c, ParseValue(ts, depth).rest)
    ensures ParseValue(ts, depth).node == Tree(c) && NoRepeatedKey(c) && Shallow(Levels(c), depth)
    decreases |ts|, 1
  {
    var rest := ParseValue(ts, depth).rest;
    if ts[0].IsScalar() {
      c := CScalar(ts[0]);
    } else if ts[0] == LBracket {
      var items := ParsedItems(ts[1..], depth + 1, []);
      c := CSequence(items);
    } else {
      var pairs := ParsedPairs(ts[1..], depth + 1, {}, []);
      c := CMapping(pairs);
    }
    assert ts == [ts[0]] + ts[1..];
    ParsePrinted(c, rest, depth);
  }

  lemma {:induction false} ParsedItems(ts: seq<Token>, depth: nat, children: seq<Node>) returns (items: Items)
    requires ParseItems(ts, depth, children).Ok?
    ensures ProperItems(items)
    ensures ts == PrintItems(items, [RBracket] + ParseItems(ts, depth, children).rest)
    decreases |ts|, 2
  {
    if ts[0] == RBracket {
      items := NoItems;
    } else {
      var value := ParseValue(ts, depth);
      var c := ParsedIsPrinted(ts, depth);
      var more := ParsedItems(SkipComma(value.rest), depth, children + [value.node]);
      var comma := SkipComma(value.rest) != value.rest;
      items := Item(c, comma, more);
      assert value.rest == CommaThen(comma, SkipComma(value.rest));
    }
  }

  lemma {:induction false} ParsedPairs(ts: seq<Token>, depth: nat, seen: set<string>, children: seq<Node>)
    returns (pairs: Pairs)
    requires ParsePairs(ts, depth, seen, children).Ok?
    ensures ProperPairs(pairs)
    ensures ts == PrintPairs(pairs, [RBrace] + ParsePairs(ts, depth, seen, children).rest)
    decreases |ts|, 2
  {
    hide ParseValue, ParseItems, Print, Proper;
    if ts[0] == RBrace {
      pairs := NoPairs;
    } else {
      var key := ts[0].value;
      var value := ParseValue(ts[2..], depth);
      var c := ParsedIsPrinted(ts[2..], depth);
      var more := ParsedPairs(SkipComma(value.rest), depth, seen + {key}, children + [Scalar(key), value.node]);
      var comma := SkipComma(value.rest) != value.rest;
      pairs := Pair(key, c, comma, more);
      assert value.rest == CommaThen(comma, SkipComma(value.rest));
      assert ts == [String(key), Colon] + ts[2..];
    }
  }

  // --- The shape of accepted trees

  /** Children of a mapping: keys and values in turn, keys scalar and pairwise different. */
  ghost predicate Paired(children: seq<Node>) {
    && |children| % 2 == 0
    && (forall i :: 0 <= i < |children| && i % 2 == 0 ==> children[i].Scalar?)
    && (forall i, j :: 0 <= i < j < |children| && i % 2 == 0 && j % 2 == 0 ==> children[i] != children[j])
  }

  /** Every mapping in the tree has paired children. */
  ghost predicate WellKeyed(n: Node) {
    match n
    case Scalar(_) => true
    case Sequence(children) => forall i :: 0 <= i < |children| ==> WellKeyed(children[i])
    case Mapping(children) => Paired(children) && forall i :: 0 <= i < |children| ==> WellKeyed(children[i])
  }

  lemma {:induction false} TreeIsWellKeyed(c: Cst)
    requires Proper(c) && NoRepeatedKey(c)
    ensures WellKeyed(Tree(c))
    decreases c
  {
    match c
    case CScalar(_) =>
    case CSequence(items) => ItemsWellKeyed([], items);
    case CMapping(pairs) => PairsWellKeyed([], pairs);
  }

  lemma {:induction false} ItemsWellKeyed(before: seq<Node>, items: Items)
    requires ProperItems(items) && NoRepeatedKeyItems(items)
    requires forall i :: 0 <= i < |before| ==> WellKeyed(before[i])
    ensures forall i :: 0 <= i < |TreeItems(before, items)| ==> WellKeyed(TreeItems(before, items)[i])
    decreases items
  {
    if items.Item? {
      TreeIsWellKeyed(items.item);
      ItemsWellKeyed(before + [Tree(items.item)], items.more);
    }
  }

  lemma {:induction false} PairsWellKeyed(before: seq<Node>, pairs: Pairs)
    requires ProperPairs(pairs) && NoRepeatedKeyPairs(pairs) && Paired(before)
    requires forall i :: 0 <= i < |before| ==> WellKeyed(before[i])
    requires forall i :: 0 <= i < |before| && i % 2 == 0 ==> before[i].value !in KeySet(pairs)
    ensures Paired(TreePairs(before, pairs))
    ensures forall i :: 0 <= i < |TreePairs(before, pairs)| ==> WellKeyed(TreePairs(before, pairs)[i])
    decreases pairs
  {
    if pairs.Pair? {
      TreeIsWellKeyed(pairs.value);
      PairsWellKeyed(before + [Scalar(pairs.key), Tree(pairs.value)], pairs.more);
    }
  }

  // --- Every such tree can be printed

  function Nesting(n: Node): nat {
    match n
    case Scalar(_) => 0
    case Sequence(children) => 1 + NestingOf(children)
    case Mapping(children) => 1 + NestingOf(children)
  }

  function NestingOf(children: seq<Node>): nat {
    if children == [] then 0 else Max(Nesting(children[0]), NestingOf(children[1..]))
  }

  /** One way to write the tree. */
  ghost function Syntax(n: Node): Cst
    requires WellKeyed(n)
  {
    match n
    case Scalar(value) => CScalar(String(value))
    case Sequence(children) => CSequence(ItemsOf(children))
    case Mapping(children) => CMapping(PairsOf(children))
  }

  ghost function ItemsOf(children: seq<Node>): Items
    requires forall i :: 0 <= i < |children| ==> WellKeyed(children[i])
  {
    if children == [] then NoItems else Item(Syntax(children[0]), true, ItemsOf(children[1..]))
  }

  ghost function PairsOf(children: seq<Node>): Pairs
    requires Paired(children) && forall i :: 0 <= i < |children| ==> WellKeyed(children[i])
  {
    if children == [] then NoPairs
    else
      PairedTail(children);
      Pair(children[0].value, Syntax(children[1]), true, PairsOf(children[2..]))
  }

  lemma PairedTail(children: seq<Node>)
    requires Paired(children) && children != []
    ensures |children| >= 2 && Paired(children[2..])
  {
    var rest := children[2..];
    forall i | 0 <= i < |rest| && i % 2 == 0 ensures rest[i].Scalar? {
      assert (i + 2) % 2 == 0 && rest[i] == children[i + 2];
    }
    forall i, j | 0 <= i < j < |rest| && i % 2 == 0 && j % 2 == 0 ensures rest[i] != rest[j] {
      assert (i + 2) % 2 == 0 && (j + 2) % 2 == 0 && rest[i] == children[i + 2] && rest[j] == children[j + 2];
    }
  }

  lemma {:induction false} SyntaxOfTree(n: Node)
    requires WellKeyed(n)
    ensures Proper(Syntax(n)) && NoRepeatedKey(Syntax(n))
    ensures Tree(Syntax(n)) == n && Levels(Syntax(n)) == Nesting(n)
    decreases n
  {
    match n
    case Scalar(_) =>
    case Sequence(children) => SyntaxOfItems([], children);
    case Mapping(children) => SyntaxOfPairs([], children);
  }

  lemma {:induction false} SyntaxOfItems(before: seq<Node>, children: seq<Node>)
    requires forall i :: 0 <= i < |children| ==> WellKeyed(children[i])
    ensures ProperItems(ItemsOf(children)) && NoRepeatedKeyItems(ItemsOf(children))
    ensures TreeItems(before, ItemsOf(children)) == before + children
    ensures LevelsItems(ItemsOf(children)) == NestingOf(children)
    decreases children
  {
    if children != [] {
      SyntaxOfTree(children[0]);
      SyntaxOfItems(before + [children[0]], children[1..]);
      assert before + [children[0]] + children[1..] == before + children;
    }
  }

  lemma {:induction false} SyntaxOfPairs(before: seq<Node>, children: seq<Node>)
    requires Paired(children) && forall i :: 0 <= i < |children| ==> WellKeyed(children[i])
    ensures ProperPairs(PairsOf(children)) && NoRepeatedKeyPairs(PairsOf(children))
    ensures TreePairs(before, PairsOf(children)) == before + children
    ensures LevelsPairs(PairsOf(children)) == NestingOf(children)
    decreases children
  {
    if children != [] {
      PairedTail(children);
      SyntaxOfTree(children[1]);
      SyntaxOfPairs(before + [children[0], children[1]], children[2..]);
      FirstKeyNew(children);
      assert children[0] == Scalar(children[0].value) && children[1..][1..] == children[2..];
      assert before + [children[0], children[1]] + children[2..] == before + children;
    }
  }

  lemma {:induction false} KeysOfPairs(children: seq<Node>, key: string)
    requires Paired(children) && forall i :: 0 <= i < |children| ==> WellKeyed(children[i])
    requires forall i :: 0 <= i < |children| && i % 2 == 0 ==> children[i] != Scalar(key)
    ensures key !in KeySet(PairsOf(children))
    decreases children
  {
    if children != [] {
      PairedTail(children);
      var rest := children[2..];
      forall i | 0 <= i < |rest| && i % 2 == 0 ensures rest[i] != Scalar(key) {
        assert (i + 2) % 2 == 0 && rest[i] == children[i + 2];
      }
      KeysOfPairs(rest, key);
    }
  }

  lemma FirstKeyNew(children: seq<Node>)
    requires Paired(children) && children != [] && forall i :: 0 <= i < |children| ==> WellKeyed(children[i])
    ensures |children| >= 2 && Paired(children[2..])
    ensures children[0].Scalar? && children[0].value !in KeySet(PairsOf(children[2..]))
  {
    PairedTail(children);
    var rest := children[2..];
    forall i | 0 <= i < |rest| && i % 2 == 0 ensures rest[i] != children[0] {
      assert (i + 2) % 2 == 0 && rest[i] == children[i + 2];
    }
    KeysOfPairs(rest, children[0].value);
  }

  /** The round trip on trees: printing any tree of scalars, sequences and mappings with
      distinct scalar keys and parsing it gives the tree back, unless it is nested too deep,
      which is always an error. */
  lemma RoundTrip(n: Node, rest: seq<Token>, depth: nat)
    requires WellKeyed(n)
    ensures var r := ParseValue(Print(Syntax(n), rest), depth);
            if Shallow(Nesting(n), depth) then r == Ok(n, rest) else r.Err?
  {
    SyntaxOfTree(n);
    ParsePrinted(Syntax(n), rest, depth);
  }
}
