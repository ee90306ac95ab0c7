/** Characters as the C library sorts them. */
module Characters {

  /** `std::isspace` in the "C" locale: the space and the controls 9 to 13. */
  predicate IsSpace(c: char) {
    c == ' ' || '\t' <= c <= '\r'
  }
}
