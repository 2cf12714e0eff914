/** The parser object: a token cursor with one token of lookahead and a depth counter,
    its mutually recursive methods proved against the functions of module FlowGrammar. */
module FlowParser {
  import opened FlowGrammar

  /** What the parser acts on: the tokens without the comments. */
  function Strip(ts: seq<Token>): seq<Token> {
    if ts == [] then []
    else if ts[0] == Comment then Strip(ts[1..])
    else [ts[0]] + Strip(ts[1..])
  }

  lemma StripFrom(tokens: seq<Token>, pos: nat)
    requires pos <= |tokens|
    ensures Strip(tokens[pos..]) ==
            if pos == |tokens| then []
            else if tokens[pos] == Comment then Strip(tokens[pos + 1..])
            else [tokens[pos]] + Strip(tokens[pos + 1..])
  {
    if pos < |tokens| {
      assert tokens[pos..][0] == tokens[pos] && tokens[pos..][1..] == tokens[pos + 1..];
    }
  }

  /** How a parse ended: the tree, an error, or with the block parser taking over. */
  datatype Outcome = Parsed(node: Node) | Failed(error: Error) | BlockStyle

  class Parser {
    const tokens: seq<Token>  // what the tokenizer yields before it yields EOF for ever
    var pos: nat
    var current: Token
    var peekToken: Token
    var hasPeek: bool
    var depth: nat

    ghost predicate Valid()
      reads this
    {
      && pos <= |tokens| && (forall i :: 0 <= i < |tokens| ==> tokens[i] != EOF)
      && current != Comment && (hasPeek ==> peekToken != Comment)
      && (current == EOF ==> Strip(tokens[pos..]) == [] && (hasPeek ==> peekToken == EOF))
      && (hasPeek && peekToken == EOF ==> Strip(tokens[pos..]) == [])
    }

    /** The comment-free tokens from the current one on. */
    ghost function Rest(): seq<Token>
      requires pos <= |tokens|
      reads this
    {
      if current == EOF then []
      else [current] + (if hasPeek && peekToken != EOF then [peekToken] else []) + Strip(tokens[pos..])
    }

    constructor (tokens: seq<Token>)
      requires forall i :: 0 <= i < |tokens| ==> tokens[i] != EOF
      ensures Valid() && Rest() == Strip(tokens) && depth == 0
    {
      this.tokens := tokens;
      pos, depth, hasPeek := 0, 0, false;
      current, peekToken := Other, Other;
      new;
      Advance();
      assert tokens[0..] == tokens;
    }

    /** The tokenizer's Next. */
    method NextToken() returns (t: Token)
      requires pos <= |tokens|
      modifies this`pos
      ensures pos <= |tokens|
      ensures if old(pos) < |tokens| then t == tokens[old(pos)] && pos == old(pos) + 1
              else t == EOF && pos == old(pos)
    {
      if pos < |tokens| {
        t := tokens[pos];
        pos := pos + 1;
      } else {
        t := EOF;
      }
    }

    /** Move to the next token that is not a comment. */
    method Advance()
      requires Valid()
      modifies this`pos, this`current, this`hasPeek
      ensures Valid() && !hasPeek
      ensures Rest() == if old(Rest()) == [] then [] else old(Rest())[1..]
    {
      hide Strip;
      ghost var was := Rest();
      if hasPeek {
        assert was != [] ==> was[1..] == (if peekToken != EOF then [peekToken] else []) + Strip(tokens[pos..]);
        current := peekToken;
        hasPeek := false;
        return;
      }
      ghost var ahead := Strip(tokens[pos..]);
      assert was != [] ==> was[1..] == ahead;
      while true
        invariant pos <= |tokens| && !hasPeek && Strip(tokens[pos..]) == ahead
        decreases |tokens| - pos
      {
        StripFrom(tokens, pos);
        current := NextToken();
        if current != Comment {
          break;
        }
      }
    }

    /** Fill the lookahead. */
    method Peek() returns (t: Token)
      requires Valid()
      modifies this`pos, this`peekToken, this`hasPeek
      ensures Valid() && hasPeek && Rest() == old(Rest())
      ensures t == peekToken && (current != EOF ==> t == if |Rest()| > 1 then Rest()[1] else EOF)
    {
      hide Strip;
      if !hasPeek {
        ghost var ahead := Strip(tokens[pos..]);
        while true
          invariant pos <= |tokens| && !hasPeek && Strip(tokens[pos..]) == ahead
          decreases |tokens| - pos
        {
          StripFrom(tokens, pos);
          peekToken := NextToken();
          if peekToken != Comment {
            break;
          }
        }
        hasPeek := true;
      }
      t := peekToken;
    }

    /** The outcome and the cursor agree with what the parsing function returns. */
    ghost predicate Agrees(o: Outcome, r: Result)
      reads this
    {
      && Valid()
      && match r
         case Ok(node, rest) => o == Parsed(node) && Rest() == rest
         case Err(error) => o == Failed(error)
    }

    method ParseScalar() returns (o: Outcome)
      requires Valid() && current.IsScalar()
      modifies this`pos, this`current, this`hasPeek
      ensures Agrees(o, Ok(Scalar(old(current).value), old(Rest())[1..]))
    {
      hide Strip;
      o := Parsed(Scalar(current.value));
      Advance();
    }

    /** The value switch that both collections contain. */
    method ParseItem() returns (o: Outcome)
      requires Valid()
      modifies this
      ensures Agrees(o, ParseValue(old(Rest()), old(depth))) && depth == old(depth)
      decreases |Rest()|, 1
    {
      hide Strip, ParsePairs, ParseItems;
      if current.IsScalar() {
        o := ParseScalar();
      } else if current == LBrace {
        o := ParseFlowMapping();
      } else if current == LBracket {
        o := ParseFlowSequence();
      } else {
        o := Failed(UnexpectedToken);
      }
    }

    method ParseFlowMapping() returns (o: Outcome)
      requires Valid() && current == LBrace
      modifies this
      ensures Agrees(o, ParseMapping(old(Rest())[1..], old(depth))) && depth == old(depth)
      decreases |Rest()|, 0
    {
      hide Strip, ParsePairs;
      if depth > MAX_DEPTH {
        return Failed(TooDeep);
      }
      depth := depth + 1;
      Advance();
      o := PairLoop();
      depth := depth - 1;
    }

    method PairLoop() returns (o: Outcome)
      requires Valid()
      modifies this
      ensures Agrees(o, ParsePairs(old(Rest()), old(depth), {}, [])) && depth == old(depth)
      decreases |Rest()|, 2
    {
      hide Strip, ParseValue;
      ghost var goal := ParsePairs(Rest(), depth, {}, []);
      var seenKeys: set<string> := {};
      var children: seq<Node> := [];
      while current != RBrace
        invariant Valid() && depth == old(depth) && |Rest()| <= |old(Rest())|
        invariant ParsePairs(Rest(), depth, seenKeys, children) == goal
        decreases |Rest()|
      {
        if current == EOF {
          return Failed(Unterminated);
        }
        if !current.String? {
          return Failed(ExpectedKey);
        }
        var key := current.value;
        ghost var ts := Rest();
        Advance();
        if current != Colon {
          return Failed(ExpectedColon);
        }
        Advance();
        assert Rest() == ts[2..];
        var value := ParseItem();
        if value.Failed? {
          return value;
        }
        // addMappingPair
        if key in seenKeys {
          return Failed(DuplicateKey);
        }
        seenKeys := seenKeys + {key};
        children := children + [Scalar(key), value.node];
        if current == Comma {
          Advance();
        }
      }
      Advance();
      o := Parsed(Mapping(children));
    }

    method ParseFlowSequence() returns (o: Outcome)
      requires Valid() && current == LBracket
      modifies this
      ensures Agrees(o, ParseSequence(old(Rest())[1..], old(depth))) && depth == old(depth)
      decreases |Rest()|, 0
    {
      hide Strip, ParseItems;
      if depth > MAX_DEPTH {
        return Failed(TooDeep);
      }
      depth := depth + 1;
      Advance();
      o := ItemLoop();
      depth := depth - 1;
    }

    method ItemLoop() returns (o: Outcome)
      requires Valid()
      modifies this
      ensures Agrees(o, ParseItems(old(Rest()), old(depth), [])) && depth == old(depth)
      decreases |Rest()|, 2
    {
      hide Strip, ParseValue;
      ghost var goal := ParseItems(Rest(), depth, []);
      var children: seq<Node> := [];
      while current != RBracket
        invariant Valid() && depth == old(depth) && |Rest()| <= |old(Rest())|
        invariant ParseItems(Rest(), depth, children) == goal
        decreases |Rest()|
      {
        if current == EOF {
          return Failed(Unterminated);
        }
        var value := ParseItem();
        if value.Failed? {
          return value;
        }
        children := children + [value.node];
        if current == Comma {
          Advance();
        }
      }
      Advance();
      o := Parsed(Sequence(children));
    }

    method SkipNewlines()
      requires Valid()
      modifies this`pos, this`current, this`hasPeek
      ensures Valid() && Rest() == AfterNewlines(old(Rest()))
    {
      hide Strip;
      while current == Newline
        invariant Valid() && AfterNewlines(Rest()) == AfterNewlines(old(Rest()))
        decreases |Rest()|
      {
        Advance();
      }
    }

    /** ParseMapping: a flow mapping is parsed here, anything else is left to the block
        parser. */
    method ParseRoot() returns (o: Outcome)
      requires Valid() && depth == 0
      modifies this
      ensures o == Document(old(Rest())) && depth == 0
    {
      SkipNewlines();
      if current != LBrace {
        return BlockStyle;
      }
      o := ParseFlowMapping();
      if o.Failed? {
        return;
      }
      SkipNewlines();
      if current != EOF {
        o := Failed(UnexpectedToken);
      }
    }
  }

  function AfterNewlines(ts: seq<Token>): seq<Token> {
    if ts != [] && ts[0] == Newline then AfterNewlines(ts[1..]) else ts
  }

  /** The document has a flow mapping at its root. */
  predicate FlowRoot(ts: seq<Token>) {
    var root := AfterNewlines(ts);
    root != [] && root[0] == LBrace
  }

  /** The outcome for a whole document. */
  function Document(ts: seq<Token>): Outcome {
    if !FlowRoot(ts) then BlockStyle
    else
      match ParseValue(AfterNewlines(ts), 0)
      case Ok(node, rest) => if AfterNewlines(rest) == [] then Parsed(node) else Failed(UnexpectedToken)
      case Err(error) => Failed(error)
  }

  /** Parsing any token stream.  Whatever comments the stream contains, a printed flow mapping
      with newlines around it yields its tree if it is nested at most 101 levels deep and repeats no key, and an error
      otherwise; whatever is accepted is such a print, up to newlines around it; and exactly
      the streams without a flow mapping at their root go to the block parser. */
  method ParseTokens(tokens: seq<Token>) returns (o: Outcome)
    requires forall i :: 0 <= i < |tokens| ==> tokens[i] != EOF
    ensures o.BlockStyle? <==> !FlowRoot(Strip(tokens))
    ensures forall c, rest :: Proper(c) && c.CMapping? && AfterNewlines(Strip(tokens)) == Print(c, rest)
                              && AfterNewlines(rest) == [] ==>
              if Levels(c) <= 101 && NoRepeatedKey(c) then o == Parsed(Tree(c)) else o.Failed?
    ensures o.Parsed? ==> exists c, rest ::
              && Proper(c) && NoRepeatedKey(c) && Levels(c) <= MAX_DEPTH + 1 && o.node == Tree(c)
              && AfterNewlines(Strip(tokens)) == Print(c, rest) && AfterNewlines(rest) == []
    ensures o.Parsed? ==> WellKeyed(o.node)
  {
    var p := new Parser(tokens);
    o := p.ParseRoot();
    var ts := Strip(tokens);
    forall c, rest | Proper(c) && c.CMapping? && AfterNewlines(ts) == Print(c, rest) && AfterNewlines(rest) == []
      ensures if Levels(c) <= MAX_DEPTH + 1 && NoRepeatedKey(c) then o == Parsed(Tree(c)) else o.Failed?
    {
      ParsePrinted(c, rest, 0);
    }
    if o.Parsed? {
      ghost var rest := ParseValue(AfterNewlines(ts), 0).rest;
      ghost var c := ParsedIsPrinted(AfterNewlines(ts), 0);
      assert AfterNewlines(ts) == Print(c, rest);
      TreeIsWellKeyed(c);
    }
  }
}
