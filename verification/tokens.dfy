/** Token kinds (`TokenType`) and tokens (`Token`). */
module Tokens {

  /** The token kinds, in declaration order. */
  datatype TokenType =
    // Keywords
    | Struct | Trait | Enum
    | Auto | Static | Const
    | If | Else
    | While | For | Do
    | Break | Continue | Return | Defer
    | I8 | I16 | I32 | I64 | I128
    | U8 | U16 | U32 | U64 | U128
    | F32 | F64
    | Usize
    // Literals
    | Identifier | Integer | Float | String | Char
    // Delimiters
    | LeftParen | RightParen | LeftBrace | RightBrace | LeftBracket | RightBracket
    | Comma | Semicolon | Colon | Dot
    | Question | Exclamation
    // Operators
    | Plus | Minus | Star | Slash | Percent
    | Ampersand | Pipe | Caret | Tilde | LeftShift | RightShift | ArithmeticRightShift
    // Comparison
    | EqualEqual | NotEqual | Less | LessEqual | Greater | GreaterEqual
    // Assignment
    | Equal | PlusEqual | MinusEqual | StarEqual | SlashEqual | PercentEqual
    | AmpersandEqual | PipeEqual | CaretEqual | LeftShiftEqual | RightShiftEqual | ArithmeticRightShiftEqual
    // Misc
    | Arrow
    // End of input
    | Eof

  /** The Java enum constant's name, which is also what `toString` returns. */
  function Name(k: TokenType): (r: string)
    ensures r != []
  {
    match k
    case Struct => "STRUCT"
    case Trait => "TRAIT"
    case Enum => "ENUM"
    case Auto => "AUTO"
    case Static => "STATIC"
    case Const => "CONST"
    case If => "IF"
    case Else => "ELSE"
    case While => "WHILE"
    case For => "FOR"
    case Do => "DO"
    case Break => "BREAK"
    case Continue => "CONTINUE"
    case Return => "RETURN"
    case Defer => "DEFER"
    case I8 => "I8"
    case I16 => "I16"
    case I32 => "I32"
    case I64 => "I64"
    case I128 => "I128"
    case U8 => "U8"
    case U16 => "U16"
    case U32 => "U32"
    case U64 => "U64"
    case U128 => "U128"
    case F32 => "F32"
    case F64 => "F64"
    case Usize => "USIZE"
    case Identifier => "IDENTIFIER"
    case Integer => "INTEGER"
    case Float => "FLOAT"
    case String => "STRING"
    case Char => "CHAR"
    case LeftParen => "LEFT_PAREN"
    case RightParen => "RIGHT_PAREN"
    case LeftBrace => "LEFT_BRACE"
    case RightBrace => "RIGHT_BRACE"
    case LeftBracket => "LEFT_BRACKET"
    case RightBracket => "RIGHT_BRACKET"
    case Comma => "COMMA"
    case Semicolon => "SEMICOLON"
    case Colon => "COLON"
    case Dot => "DOT"
    case Question => "QUESTION"
    case Exclamation => "EXCLAMATION"
    case Plus => "PLUS"
    case Minus => "MINUS"
    case Star => "STAR"
    case Slash => "SLASH"
    case Percent => "PERCENT"
    case Ampersand => "AMPERSAND"
    case Pipe => "PIPE"
    case Caret => "CARET"
    case Tilde => "TILDE"
    case LeftShift => "LEFT_SHIFT"
    case RightShift => "RIGHT_SHIFT"
    case ArithmeticRightShift => "ARITHMETIC_RIGHT_SHIFT"
    case EqualEqual => "EQUAL_EQUAL"
    case NotEqual => "NOT_EQUAL"
    case Less => "LESS"
    case LessEqual => "LESS_EQUAL"
    case Greater => "GREATER"
    case GreaterEqual => "GREATER_EQUAL"
    case Equal => "EQUAL"
    case PlusEqual => "PLUS_EQUAL"
    case MinusEqual => "MINUS_EQUAL"
    case StarEqual => "STAR_EQUAL"
    case SlashEqual => "SLASH_EQUAL"
    case PercentEqual => "PERCENT_EQUAL"
    case AmpersandEqual => "AMPERSAND_EQUAL"
    case PipeEqual => "PIPE_EQUAL"
    case CaretEqual => "CARET_EQUAL"
    case LeftShiftEqual => "LEFT_SHIFT_EQUAL"
    case RightShiftEqual => "RIGHT_SHIFT_EQUAL"
    case ArithmeticRightShiftEqual => "ARITHMETIC_RIGHT_SHIFT_EQUAL"
    case Arrow => "ARROW"
    case Eof => "EOF"
  }

  /** A lexeme: its kind, its text and where it starts (line and column
      both count from 0). Java's `int` positions are modelled as `nat`. */
  datatype Token = Token(kind: TokenType, text: seq<char>, line: nat, column: nat)
  {
    /** `Token.length()`: the length of the text. */
    function Length(): nat
    {
      |text|
    }
  }
}
