/** The fixed vocabulary of the tokenizer: bytes, the two 256-entry
    classification tables, the token kinds and the error kinds. */
module Lexicon {

  newtype byte = x: int | 0 <= x < 256

  const TAB: byte := 9
  const LF: byte := 10
  const CR: byte := 13
  const SPACE: byte := 32
  const QUOTE: byte := '"' as byte
  const BACKSLASH: byte := '\\' as byte

  /** The literal words matched byte by byte after a lead `t`, `f` or `n`. */
  const TrueWord: seq<byte> := ['t' as byte, 'r' as byte, 'u' as byte, 'e' as byte]
  const FalseWord: seq<byte> := ['f' as byte, 'a' as byte, 'l' as byte, 's' as byte, 'e' as byte]
  const NullWord: seq<byte> := ['n' as byte, 'u' as byte, 'l' as byte, 'l' as byte]

  /** The three values of the `lookup` table: 's' (whitespace), '#' (may
      appear in a number) and the zero entry every other byte has. */
  datatype ByteClass = Space | NumPart | Plain

  function Lookup(c: byte): ByteClass {
    if c == TAB || c == LF || c == CR || c == SPACE then Space
    else if c == '+' as byte || c == '-' as byte || c == '.' as byte
         || ('0' as byte <= c <= '9' as byte) || c == 'E' as byte || c == 'e' as byte
    then NumPart
    else Plain
  }

  predicate IsWs(c: byte) { Lookup(c) == Space }

  predicate IsNumByte(c: byte) { Lookup(c) == NumPart }

  /** Token kinds, in the order of their integer values in the source;
      TokNull (value 0) doubles as the "not mapped" entry of `toklookup`. */
  datatype TokType =
    | TokNull | TokTrue | TokFalse | TokNumber | TokString
    | TokArrayOpen | TokArrayClose | TokObjectOpen | TokObjectClose
    | TokObjectColon | TokComma

  predicate IsPunctuation(t: TokType) {
    t.TokArrayOpen? || t.TokArrayClose? || t.TokObjectOpen? || t.TokObjectClose?
    || t.TokObjectColon? || t.TokComma?
  }

  /** The `toklookup` table: the token a lead byte announces, TokNull for
      a byte the table does not map. */
  function TokLookup(c: byte): TokType {
    if c == '{' as byte then TokObjectOpen
    else if c == '}' as byte then TokObjectClose
    else if c == '[' as byte then TokArrayOpen
    else if c == ']' as byte then TokArrayClose
    else if c == ':' as byte then TokObjectColon
    else if c == ',' as byte then TokComma
    else if c == QUOTE then TokString
    else if c == '-' as byte || ('0' as byte <= c <= '9' as byte) then TokNumber
    else TokNull
  }

  datatype Option<+T> = None | Some(value: T)

  /** The errors the tokenizer reports. EOF and ReadFailure come from the
      byte source, WriteFailure from a sink; the others are its own. */
  datatype Error =
    | EOF
    | ReadFailure
    | WriteFailure
    | InvalidJson(rest: seq<byte>)
    | ExpectedGot(word: seq<byte>, got: byte, index: nat)
    | ExpectedGotEOF(word: seq<byte>)

  /** The two tables agree where they overlap: a byte that announces a
      number is itself a number byte, and no lead byte is whitespace. */
  lemma TablesAgree(c: byte)
    ensures TokLookup(c) == TokNumber ==> IsNumByte(c) && c != '+' as byte
    ensures IsWs(c) ==> TokLookup(c) == TokNull && c != 't' as byte && c != 'f' as byte && c != 'n' as byte
  {
  }
}
