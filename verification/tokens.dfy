/**
 The token model of the front end (src/token.rs): the closed enumeration of
 lexical categories, the literal payload a token may carry, and the immutable
 token record.
 */
module Tokens {
  import opened Wrappers

  /** Every lexical category, in the order of the source's declaration. */
  datatype TokenType =
    // Single-character tokens.
    | LeftParen | RightParen | LeftBrace | RightBrace
    | Comma | Dot | Minus | Plus | Semicolon | Slash | Star
    // One or two character tokens.
    | Bang | BangEqual
    | Equal | EqualEqual
    | Greater | GreaterEqual
    | Less | LessEqual
    // Literals.
    | Identifier | String | Number
    // Keywords.
    | And | Class | Else | False | Fun | For | If | Nil | Or
    | Print | Return | Super | This | True | Var | While
    // End of input.
    | Eof

  /**
   A 64-bit float payload, kept as its IEEE 754 bit pattern. The model never
   does arithmetic on it; it is carried from token to tree unchanged.
   */
  datatype F64 = F64(bits: bv64)

  /** The payload of a literal token: a string slice or a number. */
  datatype Literal = StringLit(text: string) | NumberLit(number: F64)

  /** One classified lexeme. The source line is a 1-based `usize`, unbounded here. */
  datatype Token = Token(ty: TokenType, lexeme: string, literal: Option<Literal>, line: nat)

  /** `Token::new`: the token built from exactly the given parts. */
  function NewToken(ty: TokenType, lexeme: string, literal: Option<Literal>, line: nat): (t: Token)
    ensures t.ty == ty && t.lexeme == lexeme && t.literal == literal && t.line == line
  {
    Token(ty, lexeme, literal, line)
  }

  /** Every token is the one `Token::new` builds from its own parts, and no other. */
  lemma NewTokenRoundTrip(t: Token)
    ensures NewToken(t.ty, t.lexeme, t.literal, t.line) == t
    ensures forall ty, lexeme, literal, line ::
              NewToken(ty, lexeme, literal, line) == t <==>
              (ty == t.ty && lexeme == t.lexeme && literal == t.literal && line == t.line)
  {
  }

  /** The number of kinds the enumeration declares. */
  const KindCount := 39

  /**
   The declaration position of a kind (its discriminant): every kind has one
   below the number of kinds, and `Eof`, declared last, is the only kind at
   the last position.
   */
  function Discriminant(ty: TokenType): (d: nat)
    ensures d < KindCount
    ensures d == KindCount - 1 <==> ty == Eof
  {
    match ty
    case LeftParen => 0
    case RightParen => 1
    case LeftBrace => 2
    case RightBrace => 3
    case Comma => 4
    case Dot => 5
    case Minus => 6
    case Plus => 7
    case Semicolon => 8
    case Slash => 9
    case Star => 10
    case Bang => 11
    case BangEqual => 12
    case Equal => 13
    case EqualEqual => 14
    case Greater => 15
    case GreaterEqual => 16
    case Less => 17
    case LessEqual => 18
    case Identifier => 19
    case String => 20
    case Number => 21
    case And => 22
    case Class => 23
    case Else => 24
    case False => 25
    case Fun => 26
    case For => 27
    case If => 28
    case Nil => 29
    case Or => 30
    case Print => 31
    case Return => 32
    case Super => 33
    case This => 34
    case True => 35
    case Var => 36
    case While => 37
    case Eof => 38
  }

  /** A literal payload is exactly one of a string or a number. */
  lemma LiteralExclusive(l: Literal)
    ensures l.StringLit? != l.NumberLit?
  {
  }
}
