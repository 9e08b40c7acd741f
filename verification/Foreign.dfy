/** Library code the relay calls but does not define. It enters the model as
    arbitrary functions, so every statement holds for all of them. */
module Foreign {
  import opened Lex

  datatype Library = Library(
    sha256: seq<Octet> -> seq<Octet>,
    /** Ed25519: public key, message text, signature. */
    ed25519: (seq<Octet>, string, seq<Octet>) -> bool,
    /** A timestamp's instant in nanoseconds, if the text is one. */
    parseTime: string -> Option<int>)

  /** The characters of the two layouts that the time parser is given, section
      5.6 of RFC 3339: digits, the marks between them, and the zone. */
  predicate TimestampChar(c: char) {
    '0' <= c <= '9' || c in {'-', 'T', ':', '.', ',', 'Z', '+'}
  }

  predicate TimestampText(s: string) {
    forall i :: 0 <= i < |s| ==> TimestampChar(s[i])
  }

  /** The one fact about the time parser that some lemmas rely on: it reads
      timestamps only. */
  ghost predicate ReadsTimestamps(lib: Library) {
    forall s :: lib.parseTime(s).Some? ==> TimestampText(s)
  }
}
