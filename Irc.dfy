/** Line framing of IRC traffic: every message ends with CR LF (section 2.3 of RFC 2812). */
module Irc {
  const Crlf: string := "\r\n"

  /** `s` is a non-empty run of text whose last line is terminated. */
  predicate EndsCrlf(s: string) {
    |s| >= 2 && s[|s| - 2..] == Crlf
  }

  /** `EndsCrlf` read character by character. */
  lemma EndsCrlfChars(s: string)
    ensures EndsCrlf(s) <==> |s| >= 2 && s[|s| - 2] == '\r' && s[|s| - 1] == '\n'
  {
    if |s| >= 2 && s[|s| - 2] == '\r' && s[|s| - 1] == '\n' {
      assert s[|s| - 2..] == [s[|s| - 2], s[|s| - 1]];
    }
  }

  /** Text put before a terminated text leaves it terminated. */
  lemma EndsCrlfAppend(a: string, b: string)
    requires EndsCrlf(b)
    ensures EndsCrlf(a + b)
  {
    assert (a + b)[|a + b| - 2..] == b[|b| - 2..];
  }

  /** `s` is empty or ends with a line terminator. */
  predicate Terminated(s: string) {
    s == [] || EndsCrlf(s)
  }
}
