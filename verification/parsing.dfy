/**
 The parser (src/parser.rs): a token sequence with a cursor, the cursor
 primitives `at_end`, `peek`, `previous`, `advance`, `check` and
 `matches_any`, and the `equality` rule with `expression` above it.

 The parser state is an immutable record threaded through pure functions;
 a primitive that mutates the cursor in the source returns the next state.
 Indexing outside the token vector panics in the source; the model states
 those bounds as preconditions.

 The operand rule `comparison` has no body in the source. The model takes it
 as a parameter and assumes of it only what the `equality` loop relies on:
 it keeps the token sequence, keeps the cursor within the stream, and never
 moves the cursor backwards.
 */
module Parsing {
  import opened Wrappers
  import opened Tokens
  import opened Exprs

  datatype Parser = Parser(tokens: seq<Token>, current: nat)

  /** The position of the first end-of-input token, or the length if there is none. */
  function EofIndex(ts: seq<Token>): (k: nat)
    ensures k <= |ts|
    ensures forall i :: 0 <= i < k ==> ts[i].ty != Eof
    ensures k < |ts| ==> ts[k].ty == Eof
    decreases |ts|
  {
    if |ts| == 0 then 0
    else if ts[0].ty == Eof then 0
    else EofIndex(ts[1..]) + 1
  }

  /** `EofIndex` is the position of the first end-of-input token. */
  lemma {:induction false} EofIndexIsFirstEof(ts: seq<Token>, k: nat)
    requires k < |ts| && ts[k].ty == Eof
    requires forall i :: 0 <= i < k ==> ts[i].ty != Eof
    ensures EofIndex(ts) == k
    decreases k
  {
    if k > 0 {
      assert ts[0].ty != Eof;
      forall i | 0 <= i < k - 1
        ensures ts[1..][i].ty != Eof
      {
        assert ts[1..][i] == ts[i + 1];
      }
      EofIndexIsFirstEof(ts[1..], k - 1);
    }
  }

  /**
   The cursor invariant: the stream holds an end-of-input token and the cursor
   has not passed the first one, so the token under the cursor exists.
   */
  predicate Valid(p: Parser)
  {
    p.current <= EofIndex(p.tokens) < |p.tokens|
  }

  /** `Parser::new`: the cursor starts at the first token. */
  function New(tokens: seq<Token>): (p: Parser)
    ensures p.tokens == tokens && p.current == 0
    ensures Valid(p) <==> exists i :: 0 <= i < |tokens| && tokens[i].ty == Eof
  {
    Parser(tokens, 0)
  }

  /** `peek`: the token under the cursor. */
  function Peek(p: Parser): (t: Token)
    requires p.current < |p.tokens|
    ensures Valid(p) ==> (t.ty == Eof <==> p.current == EofIndex(p.tokens))
  {
    p.tokens[p.current]
  }

  /** `at_end`: the cursor is on an end-of-input token, which in a valid state is the first one. */
  predicate AtEnd(p: Parser)
    requires p.current < |p.tokens|
    ensures Valid(p) ==> (AtEnd(p) <==> p.current == EofIndex(p.tokens))
  {
    Peek(p).ty == Eof
  }

  /**
   `previous`: the token just before the cursor. In a valid state it is never
   end of input, since the cursor has not passed the first one.
   */
  function Previous(p: Parser): (t: Token)
    requires 1 <= p.current <= |p.tokens|
    ensures Valid(p) ==> t.ty != Eof
  {
    p.tokens[p.current - 1]
  }

  /**
   `advance`: step past the token under the cursor unless it ends the input,
   then return the token before the cursor. At end of input on position 0
   there is no such token, hence the second precondition.
   */
  function Advance(p: Parser): (r: (Parser, Token))
    requires p.current < |p.tokens|
    requires AtEnd(p) ==> 1 <= p.current
    ensures r.0.tokens == p.tokens
    ensures r.0.current == if AtEnd(p) then p.current else p.current + 1
    ensures !AtEnd(p) ==> r.1 == p.tokens[p.current]
    ensures AtEnd(p) ==> r.1 == p.tokens[p.current - 1]
    ensures Valid(p) ==> Valid(r.0)
  {
    var next := if !AtEnd(p) then p.(current := p.current + 1) else p;
    (next, Previous(next))
  }

  /**
   `check`: whether the token under the cursor has the given kind; never
   true at end of input, so never true of `Eof` itself.
   */
  function Check(p: Parser, ty: TokenType): (r: bool)
    requires p.current < |p.tokens|
    ensures r <==> ty != Eof && p.tokens[p.current].ty == ty
  {
    if AtEnd(p) then false else Peek(p).ty == ty
  }

  /**
   `matches_any`: try the kinds in order; on the first that `check` accepts,
   advance once and report success; otherwise leave the parser as it was.
   */
  function MatchesAny(p: Parser, types: seq<TokenType>): (r: (bool, Parser))
    requires |types| > 0 ==> p.current < |p.tokens|
    ensures r.0 <==> exists i :: 0 <= i < |types| && Check(p, types[i])
    ensures r.0 <==> |types| > 0 && !AtEnd(p) && p.tokens[p.current].ty in types
    ensures r.0 ==> r.1 == Parser(p.tokens, p.current + 1)
    ensures !r.0 ==> r.1 == p
    ensures Valid(p) ==> Valid(r.1)
    decreases |types|
  {
    if |types| == 0 then (false, p)
    else if Check(p, types[0]) then (true, Advance(p).0)
    else MatchesAny(p, types[1..])
  }

  /**
   Any number of `advance` calls from a valid state: the cursor moves forward
   one token at a time and stops on the first end-of-input token. A call made
   at end of input reads the token before the cursor, so when the stream
   starts with end of input no call can be made.
   */
  function AdvanceTimes(p: Parser, n: nat): (q: Parser)
    requires Valid(p)
    requires n == 0 || 0 < EofIndex(p.tokens)
    ensures Valid(q) && q.tokens == p.tokens
    ensures q.current == if p.current + n <= EofIndex(p.tokens) then p.current + n else EofIndex(p.tokens)
    decreases n
  {
    if n == 0 then p
    else AdvanceTimes(Advance(p).0, n - 1)
  }

  /** Once at end of input, `advance` leaves the parser unchanged. */
  lemma AdvanceAtEndIsFixed(p: Parser)
    requires Valid(p) && AtEnd(p) && 1 <= p.current
    ensures Advance(p).0 == p
    ensures Check(p, EqualEqual) == false && Check(p, BangEqual) == false
  {
  }

  /**
   On a stream that is only end of input, a new parser is valid and at end
   with nothing before its cursor, so `advance` there would read position -1:
   its precondition fails.
   */
  lemma AdvanceOnEofOnlyStreamUnderflows(eof: Token)
    requires eof.ty == Eof
    ensures Valid(New([eof])) && AtEnd(New([eof]))
    ensures !(AtEnd(New([eof])) ==> 1 <= New([eof]).current)
  {
  }

  // ---------------------------------------------------------------------
  // The equality rule.
  // ---------------------------------------------------------------------

  /** The two operators of the equality level, in the order the source tries them. */
  const EqualityOperators: seq<TokenType> := [EqualEqual, BangEqual]

  /** The kinds listed in `EqualityOperators`. */
  predicate IsEqualityOperator(ty: TokenType)
  {
    ty in EqualityOperators
  }

  /**
   What the operand rule may be assumed to do: keep the token sequence, keep
   the cursor invariant, and never move the cursor backwards.
   */
  ghost predicate OperandParser(comparison: Parser -> (Parser, Expr))
  {
    forall q {:trigger comparison(q)} :: Valid(q) ==>
      var r := comparison(q);
      r.0.tokens == q.tokens && Valid(r.0) && q.current <= r.0.current
  }

  /** One step of the fold: an operator at position `at`, then an operand. */
  datatype Link = Link(operator: Token, at: nat, operand: Expr)

  /** The left-associated tree `Binary(...Binary(first, o1, e1)..., on, en)`. */
  function LeftAssoc(first: Expr, links: seq<Link>): (e: Expr)
    ensures Size(e) >= |links| + 1
    decreases |links|
  {
    if |links| == 0 then first
    else
      var last := links[|links| - 1];
      MakeBinary(LeftAssoc(first, links[..|links| - 1]), last.operator, last.operand)
  }

  /**
   Where the last operand of a derivation ended: the operand rule's stop
   position, run at the cursor when there are no links and just after the
   last operator otherwise.
   */
  ghost function FoldEnd(p: Parser, comparison: Parser -> (Parser, Expr), links: seq<Link>): nat
  {
    if |links| == 0 then comparison(p).0.current
    else comparison(Parser(p.tokens, links[|links| - 1].at + 1)).0.current
  }

  /**
   One link of a derivation, after an operand that ended at `end`: the
   operator is the `==` or `!=` token found exactly there, and the link's
   operand is the operand rule's result just after it.
   */
  ghost predicate LinkFollows(tokens: seq<Token>, comparison: Parser -> (Parser, Expr), end: nat, link: Link)
  {
    && link.at == end
    && link.at < |tokens|
    && link.operator == tokens[link.at]
    && IsEqualityOperator(link.operator.ty)
    && link.operand == comparison(Parser(tokens, link.at + 1)).1
  }

  /** Every link follows the operand before it. */
  ghost predicate Derivation(p: Parser, comparison: Parser -> (Parser, Expr), links: seq<Link>)
    decreases |links|
  {
    || |links| == 0
    || (var init := links[..|links| - 1];
        && Derivation(p, comparison, init)
        && LinkFollows(p.tokens, comparison, FoldEnd(p, comparison, init), links[|links| - 1]))
  }

  /**
   The derivation `equality` follows from `p` to `q`: the first operand is the
   operand rule's result at the cursor, every link follows the operand before
   it, and `q` is where the last operand ended.
   */
  ghost predicate Folded(p: Parser, comparison: Parser -> (Parser, Expr), first: Expr, links: seq<Link>, q: Parser)
  {
    && first == comparison(p).1
    && Derivation(p, comparison, links)
    && q.tokens == p.tokens
    && q.current == FoldEnd(p, comparison, links)
  }

  /** Consuming one more operator and operand extends the derivation by one link. */
  lemma FoldedExtend(p: Parser, comparison: Parser -> (Parser, Expr), first: Expr, links: seq<Link>, q: Parser)
    requires OperandParser(comparison)
    requires Folded(p, comparison, first, links, q)
    requires Valid(q) && IsEqualityOperator(q.tokens[q.current].ty)
    ensures
      var after := Parser(p.tokens, q.current + 1);
      var link := Link(p.tokens[q.current], q.current, comparison(after).1);
      Folded(p, comparison, first, links + [link], comparison(after).0)
  {
    var after := Parser(p.tokens, q.current + 1);
    var link := Link(p.tokens[q.current], q.current, comparison(after).1);
    assert (links + [link])[..|links|] == links;
    assert q.tokens[q.current].ty != Eof;
    assert Valid(after);
  }

  /**
   The last link of a derivation starts where the operand before it ended,
   on a token before end of input, and its operand ends no later than the
   first end-of-input token.
   */
  lemma LinkStep(p: Parser, comparison: Parser -> (Parser, Expr), links: seq<Link>)
    requires Valid(p) && OperandParser(comparison)
    requires Derivation(p, comparison, links) && |links| > 0
    requires FoldEnd(p, comparison, links[..|links| - 1]) <= EofIndex(p.tokens)
    ensures links[|links| - 1].at == FoldEnd(p, comparison, links[..|links| - 1])
    ensures links[|links| - 1].at < FoldEnd(p, comparison, links) <= EofIndex(p.tokens)
  {
    var last := links[|links| - 1];
    LastLinkOperator(p, comparison, links);
    OperandAfterOperator(p.tokens, comparison, last.at);
  }

  /** The operand after a token that is not end of input ends past that token and within the stream. */
  lemma OperandAfterOperator(tokens: seq<Token>, comparison: Parser -> (Parser, Expr), at: nat)
    requires OperandParser(comparison)
    requires at <= EofIndex(tokens) < |tokens| && tokens[at].ty != Eof
    ensures at < comparison(Parser(tokens, at + 1)).0.current <= EofIndex(tokens)
  {
    assert at != EofIndex(tokens);
    OperandStep(comparison, Parser(tokens, at + 1));
  }

  /** What `OperandParser` promises, at one state. */
  lemma OperandStep(comparison: Parser -> (Parser, Expr), q: Parser)
    requires OperandParser(comparison) && Valid(q)
    ensures comparison(q).0.tokens == q.tokens
    ensures Valid(comparison(q).0) && q.current <= comparison(q).0.current
  {
    var r := comparison(q);
    assert r.0.tokens == q.tokens && Valid(r.0) && q.current <= r.0.current;
  }

  /**
   A derivation stays within the stream: the last operand ends at or after the
   cursor and no later than the first end-of-input token.
   */
  lemma {:induction false} DerivationEndBound(p: Parser, comparison: Parser -> (Parser, Expr), links: seq<Link>)
    requires Valid(p) && OperandParser(comparison)
    requires Derivation(p, comparison, links)
    ensures p.current <= FoldEnd(p, comparison, links) <= EofIndex(p.tokens)
    decreases |links|
  {
    if |links| == 0 {
      OperandStep(comparison, p);
    } else {
      DerivationEndBound(p, comparison, links[..|links| - 1]);
      LinkStep(p, comparison, links);
    }
  }

  /**
   Each link of a derivation holds an `==` or `!=` token of the stream, at its
   recorded position, and the operand the operand rule returns just after it.
   */
  lemma {:induction false} DerivationLinks(p: Parser, comparison: Parser -> (Parser, Expr), links: seq<Link>)
    requires Derivation(p, comparison, links)
    ensures forall i :: 0 <= i < |links| ==>
              && links[i].at < |p.tokens|
              && links[i].operator == p.tokens[links[i].at]
              && IsEqualityOperator(links[i].operator.ty)
              && links[i].operand == comparison(Parser(p.tokens, links[i].at + 1)).1
    decreases |links|
  {
    if |links| > 0 {
      var n := |links| - 1;
      var init := links[..n];
      DerivationLinks(p, comparison, init);
      assert LinkFollows(p.tokens, comparison, FoldEnd(p, comparison, init), links[n]);
      forall i | 0 <= i < n
        ensures links[i] == init[i]
      {
      }
    }
  }

  /** The operators of a derivation sit at or after the cursor and before the end of the last operand. */
  lemma {:induction false} DerivationBetween(p: Parser, comparison: Parser -> (Parser, Expr), links: seq<Link>)
    requires Valid(p) && OperandParser(comparison)
    requires Derivation(p, comparison, links)
    ensures forall i :: 0 <= i < |links| ==> p.current <= links[i].at < FoldEnd(p, comparison, links)
    decreases |links|
  {
    if |links| > 0 {
      var n := |links| - 1;
      var init := links[..n];
      DerivationBetween(p, comparison, init);
      DerivationEndBound(p, comparison, init);
      LinkStep(p, comparison, links);
      forall i | 0 <= i < |links|
        ensures p.current <= links[i].at < FoldEnd(p, comparison, links)
      {
        if i < n {
          assert links[i] == init[i];
        }
      }
    }
  }

  /** The operators of a derivation sit at strictly increasing positions. */
  lemma {:induction false} DerivationIncreasing(p: Parser, comparison: Parser -> (Parser, Expr), links: seq<Link>)
    requires Valid(p) && OperandParser(comparison)
    requires Derivation(p, comparison, links)
    ensures forall i, j :: 0 <= i < j < |links| ==> links[i].at < links[j].at
    decreases |links|
  {
    if |links| > 0 {
      var n := |links| - 1;
      var init := links[..n];
      DerivationIncreasing(p, comparison, init);
      DerivationBetween(p, comparison, init);
      assert LinkFollows(p.tokens, comparison, FoldEnd(p, comparison, init), links[n]);
      forall i, j | 0 <= i < j < |links|
        ensures links[i].at < links[j].at
      {
        assert links[i] == init[i];
        if j < n { assert links[j] == init[j]; }
      }
    }
  }

  /** A derivation of a given length is unique: each link is forced by the one before. */
  lemma {:induction false} DerivationDeterministic(p: Parser, comparison: Parser -> (Parser, Expr), a: seq<Link>, b: seq<Link>)
    requires Derivation(p, comparison, a) && Derivation(p, comparison, b) && |a| == |b|
    ensures a == b
    decreases |a|
  {
    if |a| > 0 {
      var n := |a| - 1;
      DerivationDeterministic(p, comparison, a[..n], b[..n]);
      assert LinkFollows(p.tokens, comparison, FoldEnd(p, comparison, a[..n]), a[n]);
      assert LinkFollows(p.tokens, comparison, FoldEnd(p, comparison, b[..n]), b[n]);
      assert a == a[..n] + [a[n]] && b == b[..n] + [b[n]];
    }
  }

  /** The operand before a derivation's last link ends on an `==` or `!=` token. */
  lemma LastLinkOperator(p: Parser, comparison: Parser -> (Parser, Expr), links: seq<Link>)
    requires Derivation(p, comparison, links) && |links| > 0
    ensures FoldEnd(p, comparison, links[..|links| - 1]) < |p.tokens|
    ensures IsEqualityOperator(p.tokens[FoldEnd(p, comparison, links[..|links| - 1])].ty)
  {
  }

  /**
   A derivation that is a proper prefix of another ends on an `==` or `!=`
   token: the longer one's next link starts there.
   */
  lemma {:induction false} NextOperator(p: Parser, comparison: Parser -> (Parser, Expr), links: seq<Link>, longer: seq<Link>)
    requires Derivation(p, comparison, links) && Derivation(p, comparison, longer)
    requires |links| < |longer|
    ensures FoldEnd(p, comparison, links) < |p.tokens|
    ensures IsEqualityOperator(p.tokens[FoldEnd(p, comparison, links)].ty)
    decreases |longer|
  {
    var n := |longer| - 1;
    if |links| == n {
      DerivationDeterministic(p, comparison, links, longer[..n]);
      LastLinkOperator(p, comparison, longer);
    } else {
      NextOperator(p, comparison, links, longer[..n]);
    }
  }

  /**
   A derivation that cannot be extended (the token after it is neither `==`
   nor `!=`) is unique: the postcondition of `equality` determines its result.
   */
  lemma FoldedUnique(p: Parser, comparison: Parser -> (Parser, Expr),
                     first: Expr, links: seq<Link>, q: Parser,
                     first': Expr, links': seq<Link>, q': Parser)
    requires Folded(p, comparison, first, links, q) && Valid(q)
    requires !Check(q, EqualEqual) && !Check(q, BangEqual)
    requires Folded(p, comparison, first', links', q') && Valid(q')
    requires !Check(q', EqualEqual) && !Check(q', BangEqual)
    ensures first == first' && links == links' && q == q'
  {
    if |links| < |links'| {
      NextOperator(p, comparison, links, links');
      assert false;
    } else if |links'| < |links| {
      NextOperator(p, comparison, links', links);
      assert false;
    } else {
      DerivationDeterministic(p, comparison, links, links');
    }
  }

  /**
   `equality`: parse an operand, then while the next token is `==` or `!=`
   consume it and parse another operand, folding to the left. It stops on
   the first token that is neither (or at end of input) without consuming it.
   The ghost results name the operands and operators of the fold.
   */
  method Equality(p: Parser, comparison: Parser -> (Parser, Expr))
    returns (q: Parser, e: Expr, ghost first: Expr, ghost links: seq<Link>)
    requires Valid(p)
    requires OperandParser(comparison)
    ensures Valid(q) && q.tokens == p.tokens && p.current <= q.current
    ensures !Check(q, EqualEqual) && !Check(q, BangEqual)
    ensures Folded(p, comparison, first, links, q)
    ensures e == LeftAssoc(first, links)
  {
    var operand := comparison(p);
    q, e := operand.0, operand.1;
    first, links := e, [];
    var matched := MatchesAny(q, EqualityOperators);
    while matched.0
      invariant Valid(q) && q.tokens == p.tokens && p.current <= q.current
      invariant matched == MatchesAny(q, EqualityOperators)
      invariant Folded(p, comparison, first, links, q)
      invariant e == LeftAssoc(first, links)
      decreases EofIndex(p.tokens) - q.current
    {
      var afterOperator := matched.1;
      var operator := Previous(afterOperator);
      var right := comparison(afterOperator);
      ghost var link := Link(operator, q.current, right.1);
      assert (links + [link])[..|links|] == links;
      FoldedExtend(p, comparison, first, links, q);
      links := links + [link];
      e := MakeBinary(e, operator, right.1);
      q := right.0;
      matched := MatchesAny(q, EqualityOperators);
    }
  }

  /** `expression`: exactly the equality rule. */
  method Expression(p: Parser, comparison: Parser -> (Parser, Expr))
    returns (q: Parser, e: Expr, ghost first: Expr, ghost links: seq<Link>)
    requires Valid(p)
    requires OperandParser(comparison)
    ensures Valid(q) && q.tokens == p.tokens && p.current <= q.current
    ensures !Check(q, EqualEqual) && !Check(q, BangEqual)
    ensures Folded(p, comparison, first, links, q)
    ensures e == LeftAssoc(first, links)
  {
    q, e, first, links := Equality(p, comparison);
  }

  /** The chain `a == b != c` has the derivation with two links, ending on end of input. */
  lemma ChainDerivation(ts: seq<Token>, comparison: Parser -> (Parser, Expr), a: Expr, b: Expr, c: Expr)
    requires |ts| == 6
    requires ts[1].ty == EqualEqual && ts[3].ty == BangEqual
    requires comparison(Parser(ts, 0)) == (Parser(ts, 1), a)
    requires comparison(Parser(ts, 2)) == (Parser(ts, 3), b)
    requires comparison(Parser(ts, 4)) == (Parser(ts, 5), c)
    requires ts[5].ty == Eof
    ensures
      var links := [Link(ts[1], 1, b), Link(ts[3], 3, c)];
      && Derivation(New(ts), comparison, links)
      && FoldEnd(New(ts), comparison, links) == 5
      && ts[FoldEnd(New(ts), comparison, links)].ty == Eof
  {
    var p := New(ts);
    var one := [Link(ts[1], 1, b)];
    var expected := one + [Link(ts[3], 3, c)];
    assert expected[..1] == one && one[..0] == [];
    assert FoldEnd(p, comparison, []) == 1;
    assert LinkFollows(ts, comparison, 1, one[0]);
    assert Derivation(p, comparison, one);
    assert FoldEnd(p, comparison, one) == 3;
    assert LinkFollows(ts, comparison, 3, expected[1]);
    assert expected == [Link(ts[1], 1, b), Link(ts[3], 3, c)];
  }

  /**
   `a == b != c` folds to the left: for any operand rule that reads `a`, `b`
   and `c` as one token each, every result `equality` may return is
   `Binary(Binary(a, ==, b), !=, c)` with the cursor on the end of input.
   */
  lemma EqualityChainExample(ts: seq<Token>, comparison: Parser -> (Parser, Expr), a: Expr, b: Expr, c: Expr,
                             first: Expr, links: seq<Link>, q: Parser)
    requires |ts| == 6
    requires ts[0].ty != Eof && ts[1].ty == EqualEqual && ts[2].ty != Eof
    requires ts[3].ty == BangEqual && ts[4].ty != Eof && ts[5].ty == Eof
    requires comparison(Parser(ts, 0)) == (Parser(ts, 1), a)
    requires comparison(Parser(ts, 2)) == (Parser(ts, 3), b)
    requires comparison(Parser(ts, 4)) == (Parser(ts, 5), c)
    requires Folded(New(ts), comparison, first, links, q) && Valid(q)
    requires !Check(q, EqualEqual) && !Check(q, BangEqual)
    ensures q.current == 5
    ensures LeftAssoc(first, links) == MakeBinary(MakeBinary(a, ts[1], b), ts[3], c)
  {
    var expected := [Link(ts[1], 1, b), Link(ts[3], 3, c)];
    ChainDerivation(ts, comparison, a, b, c);
    EofIndexIsFirstEof(ts, 5);
    FoldedUnique(New(ts), comparison, first, links, q, a, expected, Parser(ts, 5));
    assert expected[..1] == [Link(ts[1], 1, b)] && expected[..1][..0] == [];
    assert LeftAssoc(a, expected[..1]) == MakeBinary(a, ts[1], b);
    assert LeftAssoc(a, expected) == MakeBinary(MakeBinary(a, ts[1], b), ts[3], c);
  }
}
