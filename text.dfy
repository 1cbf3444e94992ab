/**
 * Character classes and string helpers shared by the video-identifier
 * extractor and the URL validator.
 *
 * Python 3 str patterns give `\w` its Unicode meaning (every character that
 * is alphanumeric in Unicode, plus `_`). That set is not written out here:
 * every matcher takes the class as a parameter `w`, so each property proved
 * below holds whatever `\w` is. Only the concrete examples assume something
 * about it, namely `AsciiAgrees(w)`: on ASCII characters `\w` is exactly
 * `[A-Za-z0-9_]`, which is true of Python's Unicode `\w`.
 */
module Text {

  datatype Option<+T> = None | Some(value: T)

  /** The characters the regular-expression class `\w` matches. */
  type WordClass = char -> bool

  /** The class `[\w-]`. */
  predicate IdChar(w: WordClass, c: char) {
    w(c) || c == '-'
  }

  /** An ASCII character that `\w` matches: a letter, a digit or `_`. */
  predicate AsciiWord(c: char) {
    ('a' <= c <= 'z') || ('A' <= c <= 'Z') || ('0' <= c <= '9') || c == '_'
  }

  /** On ASCII characters, `w` is exactly `[A-Za-z0-9_]`. */
  predicate AsciiAgrees(w: WordClass) {
    forall c: char :: c < '\U{80}' ==> (w(c) <==> AsciiWord(c))
  }

  /** `s` consists of exactly eleven characters of `[\w-]`: the shape of a video identifier. */
  predicate IsIdShape(w: WordClass, s: string) {
    |s| == 11 && forall k :: 0 <= k < |s| ==> IdChar(w, s[k])
  }

  /** The short-link form of a video url is this prefix followed by the identifier. */
  const ShortPrefix: string := "https://youtu.be/"

  predicate StartsWith(s: string, prefix: string) {
    |prefix| <= |s| && s[..|prefix|] == prefix
  }

  /** `t` occurs in `s` starting at position `j`. */
  predicate OccursAt(s: string, t: string, j: nat) {
    j + |t| <= |s| && s[j..j + |t|] == t
  }

  /** The regex `.` matches every character but a line feed. */
  predicate NoNewline(s: string) {
    forall k :: 0 <= k < |s| ==> s[k] != '\n'
  }

  lemma StartsWithAppend(a: string, b: string, prefix: string)
    requires StartsWith(a, prefix)
    ensures StartsWith(a + b, prefix)
  {
    assert (a + b)[..|prefix|] == a[..|prefix|];
  }

  lemma DropAppend(a: string, b: string, n: nat)
    requires n <= |a|
    ensures (a + b)[n..] == a[n..] + b
  {
  }
}
