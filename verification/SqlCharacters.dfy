/**
 The tokenizer's character classes.  SQL text is a string of bytes; bytes from 0x80 on are parts of
 characters outside ASCII.
 */
module SqlCharacters {

  predicate IsSpace(c: char) {
    c == ' ' || c == '\t' || c == '\n' || c == '\U{0B}' || c == '\U{0C}' || c == '\r'
  }

  predicate IsNewline(c: char) {
    c == '\n' || c == '\r'
  }

  predicate IsDigit(c: char) {
    '0' <= c <= '9'
  }

  /** Any ASCII punctuation but the underscore. */
  predicate IsPunctuation(c: char) {
    c != '_' && ('!' <= c <= '/' || ':' <= c <= '@' || '[' <= c <= '`' || '{' <= c <= '~')
  }

  predicate IsSingleByteOperator(c: char) {
    c in {'(', ')', '{', '}', '[', ']', ',', '?', '$', '-', '#'}
  }

  predicate IsControlFlow(c: char) {
    c in {'\'', '-', ';', '"', '.'}
  }

  predicate IsInitialNumber(c: char) {
    IsDigit(c) || c == '.'
  }

  predicate IsScientific(c: char) {
    c == 'e' || c == 'E'
  }

  /** A letter that makes a string literal special when a quote follows. */
  predicate IsStringPrefix(c: char) {
    c in {'N', 'n', 'X', 'x', 'E', 'e', 'B', 'b'}
  }

  predicate IsKeywordCharacter(c: char) {
    !IsSingleByteOperator(c) && !IsPunctuation(c) && !IsSpace(c) && !IsControlFlow(c)
  }

  predicate IsOperatorCharacter(c: char) {
    !IsSingleByteOperator(c) && !IsControlFlow(c) && IsPunctuation(c)
  }

  /** An operator with one of these may end in '+'. */
  predicate IsSpecialOperatorCharacter(c: char) {
    c in {'~', '!', '@', '#', '%', '^', '&', '|', '`', '?'}
  }

  predicate IsDollarTagCharacter(c: char) {
    'A' <= c <= 'Z' || 'a' <= c <= 'z' || IsDigit(c) || c == '_' || '\U{80}' <= c <= '\U{FF}'
  }
}
