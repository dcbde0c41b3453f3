/** The fragment of Go's filepath.Match that the wildcard matcher calls:
    `*` matches any run of characters other than `/`, `?` matches one
    character other than `/`, every other character matches itself, and the
    pattern must cover the whole name. Character classes and escapes are not
    part of the fragment: a pattern holding `[` or `\` is reported as a bad
    pattern, the only result the matcher acts on for such patterns. */
module Glob {

  const Separator: char := '/'

  /** filepath.Match returns ErrBadPattern (or, for a class or an escape,
      does something this fragment does not interpret). */
  predicate BadPattern(pattern: string) {
    '[' in pattern || '\\' in pattern
  }

  /** filepath.Match(pattern, name) on a pattern that is not bad. */
  predicate Match(pattern: string, name: string)
    decreases |pattern| + |name|
  {
    if pattern == [] then name == []
    else if pattern[0] == '*' then
      Match(pattern[1..], name) || (name != [] && name[0] != Separator && Match(pattern, name[1..]))
    else if name == [] then false
    else if pattern[0] == '?' then name[0] != Separator && Match(pattern[1..], name[1..])
    else name[0] == pattern[0] && Match(pattern[1..], name[1..])
  }

  /** A pattern without wildcards matches exactly itself. */
  lemma {:induction false} LiteralMatch(pattern: string, name: string)
    requires '*' !in pattern && '?' !in pattern
    ensures Match(pattern, name) <==> name == pattern
    decreases |pattern|
  {
    if pattern != [] && name != [] {
      LiteralMatch(pattern[1..], name[1..]);
      assert name == [name[0]] + name[1..];
      assert pattern == [pattern[0]] + pattern[1..];
    }
  }

  /** A lone `*` matches exactly the names with no separator in them: the
      wildcard never crosses a directory boundary. */
  lemma {:induction false} StarStaysInSegment(name: string)
    ensures Match("*", name) <==> Separator !in name
    decreases |name|
  {
    assert "*"[1..] == [];
    if name != [] {
      StarStaysInSegment(name[1..]);
      assert name == [name[0]] + name[1..];
    }
  }
}
