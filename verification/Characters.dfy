/** std::isspace in the C locale, which the lexer and the stream operator >> go by. */
module Characters {

  predicate IsSpace(c: char) {
    c == ' ' || '\t' <= c <= '\r'
  }
}
