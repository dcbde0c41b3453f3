/** The fragment of Go's `strings` and `strconv` packages the monitor relies on,
    over strings as sequences of characters. */
module Text {

  import opened Wrappers

  /** strings.HasPrefix */
  predicate HasPrefix(s: string, prefix: string) {
    |prefix| <= |s| && s[..|prefix|] == prefix
  }

  /** strings.HasSuffix */
  predicate HasSuffix(s: string, suffix: string) {
    |suffix| <= |s| && s[|s| - |suffix|..] == suffix
  }

  /** A one-character prefix is the first character. */
  lemma PrefixChar(s: string, c: char)
    ensures HasPrefix(s, [c]) <==> s != [] && s[0] == c
  {
    if s != [] {
      assert s[..1] == [s[0]];
    }
  }

  /** A string with a prefix is the prefix followed by the rest. */
  lemma PrefixSplit(s: string, prefix: string)
    requires HasPrefix(s, prefix)
    ensures s == prefix + s[|prefix|..]
    ensures prefix != [] ==> s[0] == prefix[0]
  {
    assert s == s[..|prefix|] + s[|prefix|..];
  }

  /** A string whose first character differs from the prefix's does not
      start with it. */
  lemma FirstCharBlocksPrefix(s: string, prefix: string)
    requires s != [] && prefix != [] && s[0] != prefix[0]
    ensures !HasPrefix(s, prefix)
  {
    if |prefix| <= |s| {
      assert s[..|prefix|][0] == s[0];
    }
  }

  /** t occurs in s starting at position k. */
  predicate OccursAt(s: string, t: string, k: int) {
    0 <= k && k + |t| <= |s| && s[k..k + |t|] == t
  }

  lemma OccursAtHead(s: string, t: string, k: int)
    requires OccursAt(s, t, k) && t != []
    ensures s[k] == t[0]
  {
    assert s[k..k + |t|][0] == s[k];
  }

  /** The first position at or after i at which t occurs in s, or -1. */
  function IndexFrom(s: string, t: string, i: nat): (r: int)
    ensures r == -1 || (i <= r && OccursAt(s, t, r))
    ensures r == -1 ==> forall k :: i <= k ==> !OccursAt(s, t, k)
    ensures forall k :: i <= k < r ==> !OccursAt(s, t, k)
    decreases |s| - i
  {
    if i + |t| > |s| then -1
    else if s[i..i + |t|] == t then i
    else IndexFrom(s, t, i + 1)
  }

  /** strings.Index: the first position at which t occurs in s, or -1 when
      there is none. */
  function Index(s: string, t: string): (r: int)
    ensures r == -1 || OccursAt(s, t, r)
    ensures r == -1 <==> forall k :: !OccursAt(s, t, k)
    ensures forall k :: 0 <= k < r ==> !OccursAt(s, t, k)
  {
    IndexFrom(s, t, 0)
  }

  /** strings.Contains */
  predicate Contains(s: string, t: string) {
    Index(s, t) >= 0
  }

  lemma OccursAtChar(s: string, c: char, k: int)
    ensures OccursAt(s, [c], k) <==> 0 <= k < |s| && s[k] == c
  {
    if 0 <= k < |s| {
      assert s[k..k + 1] == [s[k]];
    }
  }

  /** For a one-character separator, Index finds the first position holding it. */
  lemma IndexChar(s: string, c: char)
    ensures -1 <= Index(s, [c]) < |s|
    ensures Index(s, [c]) == -1 <==> c !in s
    ensures Index(s, [c]) >= 0 ==> s[Index(s, [c])] == c
    ensures forall k :: 0 <= k < Index(s, [c]) ==> s[k] != c
    ensures Index(s, [c]) == -1 ==> forall k :: 0 <= k < |s| ==> s[k] != c
  {
    var r := Index(s, [c]);
    forall k ensures OccursAt(s, [c], k) <==> 0 <= k < |s| && s[k] == c {
      OccursAtChar(s, c, k);
    }
  }

  lemma ContainsChar(s: string, c: char)
    ensures Contains(s, [c]) <==> c in s
  {
    IndexChar(s, c);
  }

  /** The last position below n holding c, or -1. */
  function LastIndexBelow(s: string, c: char, n: nat): (r: int)
    requires n <= |s|
    ensures -1 <= r < n
    ensures r >= 0 ==> s[r] == c
    ensures forall k :: r < k < n ==> s[k] != c
  {
    if n == 0 then -1
    else if s[n - 1] == c then n - 1
    else LastIndexBelow(s, c, n - 1)
  }

  /** strings.LastIndex with a one-character separator: the last position of
      c in s, or -1 when c does not occur. */
  function LastIndexOf(s: string, c: char): (r: int)
    ensures -1 <= r < |s|
    ensures r >= 0 ==> s[r] == c
    ensures forall k :: r < k < |s| ==> s[k] != c
  {
    LastIndexBelow(s, c, |s|)
  }

  /** strings.Split with a non-empty separator: the pieces of s between the
      non-overlapping occurrences of sep, found left to right. */
  function Split(s: string, sep: string): (parts: seq<string>)
    requires sep != []
    ensures |parts| >= 1
    ensures forall k :: 0 <= k < |parts| ==> !Contains(parts[k], sep)
    decreases |s|
  {
    var i := Index(s, sep);
    if i < 0 then [s]
    else
      BeforeFirstOccurrence(s, sep, i);
      [s[..i]] + Split(s[i + |sep|..], sep)
  }

  /** What comes before the first occurrence of t holds no occurrence of t. */
  lemma BeforeFirstOccurrence(s: string, t: string, i: int)
    requires t != [] && i == Index(s, t) && i >= 0
    ensures !Contains(s[..i], t)
  {
    var k := Index(s[..i], t);
    if k >= 0 {
      assert OccursAt(s[..i], t, k);
      assert s[..i][k..k + |t|] == s[k..k + |t|];
      assert OccursAt(s, t, k) && k < i;
      assert false;
    }
  }

  /** strings.Join */
  function Join(parts: seq<string>, sep: string): string {
    if |parts| == 0 then ""
    else if |parts| == 1 then parts[0]
    else parts[0] + sep + Join(parts[1..], sep)
  }

  /** One step of Split: the piece before the first separator, then the
      split of the rest. */
  lemma SplitAtFirst(s: string, sep: string, i: int)
    requires sep != [] && i == Index(s, sep) && i >= 0
    ensures Split(s, sep) == [s[..i]] + Split(s[i + |sep|..], sep)
  {
  }

  /** Joining the pieces of a split with the same separator gives back the
      original string. */
  lemma {:induction false} JoinSplit(s: string, sep: string)
    requires sep != []
    ensures Join(Split(s, sep), sep) == s
    decreases |s|
  {
    var i := Index(s, sep);
    if i >= 0 {
      var rest := s[i + |sep|..];
      var pieces := Split(rest, sep);
      JoinSplit(rest, sep);
      var all := [s[..i]] + pieces;
      SplitAtFirst(s, sep, i);
      assert Join(all, sep) == s[..i] + sep + Join(pieces, sep) by {
        assert all[1..] == pieces;
      }
      assert s == s[..i] + sep + rest by {
        assert OccursAt(s, sep, i);
        assert s == s[..i] + s[i..i + |sep|] + rest;
      }
    }
  }

  /** Splitting at a single-character separator distributes over a
      concatenation that puts the separator between the two halves. */
  lemma IndexAround(d: string, c: char, t: string)
    ensures Index(d + [c] + t, [c]) == if Index(d, [c]) >= 0 then Index(d, [c]) else |d|
  {
    var s := d + [c] + t;
    IndexChar(s, c);
    IndexChar(d, c);
    var j := Index(d, [c]);
    if j >= 0 {
      assert s[j] == c;
    } else {
      assert s[|d|] == c;
      assert forall k :: 0 <= k < |d| ==> s[k] == d[k];
    }
  }

  /** The first piece of a split at c, when the separator after d is the
      first c. */
  lemma SplitAroundNoSeparator(d: string, c: char, t: string)
    requires Index(d, [c]) < 0
    ensures Split(d + [c] + t, [c]) == [d] + Split(t, [c])
    ensures Split(d, [c]) == [d]
  {
    var s := d + [c] + t;
    IndexAround(d, c, t);
    assert s[..|d|] == d;
    assert s[|d| + 1..] == t;
  }

  /** Splitting d + c + t when d already holds a c: the first piece ends at
      d's first c. */
  lemma SplitAtFirstSeparator(d: string, c: char, t: string, j: int)
    requires j == Index(d, [c]) && j >= 0
    ensures Split(d + [c] + t, [c]) == [d[..j]] + Split(d[j + 1..] + [c] + t, [c])
  {
    IndexAround(d, c, t);
    var s := d + [c] + t;
    assert j < |d| by {
      IndexChar(d, c);
    }
    SliceAround(d, c, t, j);
    assert Split(s, [c]) == [s[..j]] + Split(s[j + 1..], [c]);
  }

  lemma SliceAround(d: string, c: char, t: string, j: nat)
    requires j < |d|
    ensures (d + [c] + t)[..j] == d[..j]
    ensures (d + [c] + t)[j + 1..] == d[j + 1..] + [c] + t
  {
  }

  lemma ConsAppend(x: string, front: seq<string>, back: seq<string>, whole: seq<string>, left: seq<string>)
    requires whole == [x] + (front + back) && left == [x] + front
    ensures whole == left + back
  {
  }

  /** The recursive step of SplitAround: from the split of what follows d's
      first c to the split of the whole. */
  lemma SplitAroundSeparator(d: string, c: char, t: string, j: int)
    requires j == Index(d, [c]) && j >= 0
    requires Split(d[j + 1..] + [c] + t, [c]) == Split(d[j + 1..], [c]) + Split(t, [c])
    ensures Split(d + [c] + t, [c]) == Split(d, [c]) + Split(t, [c])
  {
    SplitAtFirstSeparator(d, c, t, j);
    var d' := d[j + 1..];
    assert Split(d, [c]) == [d[..j]] + Split(d', [c]);
    ConsAppend(d[..j], Split(d', [c]), Split(t, [c]), Split(d + [c] + t, [c]), Split(d, [c]));
  }

  lemma {:induction false} SplitAround(d: string, c: char, t: string)
    ensures Split(d + [c] + t, [c]) == Split(d, [c]) + Split(t, [c])
    decreases |d|
  {
    var j := Index(d, [c]);
    IndexChar(d, c);
    if j >= 0 {
      SplitAround(d[j + 1..], c, t);
      SplitAroundSeparator(d, c, t, j);
    } else {
      SplitAroundNoSeparator(d, c, t);
    }
  }

  /** The whitespace test of strings.Fields (unicode.IsSpace): the ASCII
      spaces and the Unicode White_Space characters. */
  predicate IsSpace(c: char) {
    c == ' ' || c == '\t' || c == '\n' || c == '\U{000B}' || c == '\U{000C}' || c == '\r'
    || c == '\U{0085}' || c == '\U{00A0}' || c == '\U{1680}'
    || ('\U{2000}' <= c <= '\U{200A}')
    || c == '\U{2028}' || c == '\U{2029}' || c == '\U{202F}' || c == '\U{205F}' || c == '\U{3000}'
  }

  /** A field: non-empty and free of whitespace. */
  predicate IsWord(w: string) {
    w != [] && forall k :: 0 <= k < |w| ==> !IsSpace(w[k])
  }

  /** Length of the leading run of non-space characters of s. */
  function WordLength(s: string): (n: nat)
    ensures n <= |s|
    ensures forall k :: 0 <= k < n ==> !IsSpace(s[k])
    ensures n < |s| ==> IsSpace(s[n])
  {
    if s == [] || IsSpace(s[0]) then 0 else 1 + WordLength(s[1..])
  }

  /** strings.Fields: the maximal runs of non-space characters, in order. */
  function Fields(s: string): (fs: seq<string>)
    ensures forall k :: 0 <= k < |fs| ==> IsWord(fs[k])
    decreases |s|
  {
    if s == [] then []
    else if IsSpace(s[0]) then Fields(s[1..])
    else
      var n := WordLength(s);
      [s[..n]] + Fields(s[n..])
  }

  /** The characters of s that are not whitespace, in order. */
  function NonSpace(s: string): string {
    if s == [] then [] else (if IsSpace(s[0]) then [] else [s[0]]) + NonSpace(s[1..])
  }

  function Concat(ws: seq<string>): string {
    if ws == [] then [] else ws[0] + Concat(ws[1..])
  }

  lemma {:induction false} NonSpaceOfWordPrefix(s: string, n: nat)
    requires n <= |s|
    requires forall k :: 0 <= k < n ==> !IsSpace(s[k])
    ensures NonSpace(s) == s[..n] + NonSpace(s[n..])
  {
    if n > 0 {
      NonSpaceOfWordPrefix(s[1..], n - 1);
      assert s[1..][n - 1..] == s[n..];
      assert s[..n] == [s[0]] + s[1..][..n - 1];
    }
  }

  /** Fields loses only whitespace: concatenated, the fields are the line
      with its whitespace removed. */
  lemma {:induction false} FieldsKeepEveryNonSpace(s: string)
    ensures Concat(Fields(s)) == NonSpace(s)
    decreases |s|
  {
    if s != [] {
      if IsSpace(s[0]) {
        FieldsKeepEveryNonSpace(s[1..]);
      } else {
        var n := WordLength(s);
        FieldsKeepEveryNonSpace(s[n..]);
        NonSpaceOfWordPrefix(s, n);
        assert Fields(s) == [s[..n]] + Fields(s[n..]);
        assert Fields(s)[1..] == Fields(s[n..]);
      }
    }
  }

  /** Every character of a field is a character of the line. */
  lemma FieldCharsInLine(s: string, k: nat, j: nat)
    requires k < |Fields(s)| && j < |Fields(s)[k]|
    ensures Fields(s)[k][j] in s
    decreases |s|
  {
    if IsSpace(s[0]) {
      FieldCharsInLine(s[1..], k, j);
    } else if k > 0 {
      var n := WordLength(s);
      FieldCharsInLine(s[n..], k - 1, j);
    }
  }

  /** A word followed by a space and any text: Fields takes the word, then
      the fields of the text. */
  lemma FieldsOfWordThen(w: string, rest: string)
    requires IsWord(w)
    ensures Fields(w + " " + rest) == [w] + Fields(rest)
  {
    var s := w + " " + rest;
    assert s[|w|] == ' ';
    assert forall k :: 0 <= k < |w| ==> s[k] == w[k];
    var n := WordLength(s);
    assert n == |w|;
    assert s[..n] == w;
    assert s[n..] == [' '] + rest;
    assert Fields(s[n..]) == Fields(rest) by {
      assert s[n..][1..] == rest;
    }
  }

  /** A run of whitespace, possibly empty. */
  predicate AllSpace(gap: string) {
    forall k :: 0 <= k < |gap| ==> IsSpace(gap[k])
  }

  /** Leading whitespace of any length is skipped. */
  lemma {:induction false} FieldsSkipSpace(gap: string, rest: string)
    requires AllSpace(gap)
    ensures Fields(gap + rest) == Fields(rest)
    decreases |gap|
  {
    if gap != [] {
      assert (gap + rest)[0] == gap[0];
      assert (gap + rest)[1..] == gap[1..] + rest;
      FieldsSkipSpace(gap[1..], rest);
    } else {
      assert gap + rest == rest;
    }
  }

  /** A word followed by a non-empty run of whitespace and any text: Fields
      takes the word, then the fields of the text, however wide the gap. */
  lemma FieldsOfWordGap(w: string, gap: string, rest: string)
    requires IsWord(w) && gap != [] && AllSpace(gap)
    ensures Fields(w + gap + rest) == [w] + Fields(rest)
  {
    var s := w + gap + rest;
    assert s[|w|] == gap[0];
    assert forall k :: 0 <= k < |w| ==> s[k] == w[k];
    var n := WordLength(s);
    assert n == |w|;
    assert s[..n] == w;
    assert s[n..] == gap + rest;
    FieldsSkipSpace(gap, rest);
  }

  /** A line laid out from words: each word followed by its gap. */
  function Spaced(ws: seq<string>, gaps: seq<string>): string
    requires |gaps| == |ws|
  {
    if ws == [] then [] else ws[0] + gaps[0] + Spaced(ws[1..], gaps[1..])
  }

  /** Words separated by whitespace gaps of any non-empty width, with any
      whitespace before the first and after the last, are exactly the
      fields of the line: the fields are the maximal non-space runs. */
  lemma FieldsOfSpaced(lead: string, ws: seq<string>, gaps: seq<string>)
    requires AllSpace(lead) && |gaps| == |ws|
    requires forall k :: 0 <= k < |ws| ==> IsWord(ws[k]) && AllSpace(gaps[k])
    requires forall k :: 0 <= k < |ws| - 1 ==> gaps[k] != []
    ensures Fields(lead + Spaced(ws, gaps)) == ws
  {
    FieldsSkipSpace(lead, Spaced(ws, gaps));
    FieldsOfSpacedWords(ws, gaps);
  }

  lemma {:induction false} FieldsOfSpacedWords(ws: seq<string>, gaps: seq<string>)
    requires |gaps| == |ws|
    requires forall k :: 0 <= k < |ws| ==> IsWord(ws[k]) && AllSpace(gaps[k])
    requires forall k :: 0 <= k < |ws| - 1 ==> gaps[k] != []
    ensures Fields(Spaced(ws, gaps)) == ws
    decreases |ws|
  {
    if ws != [] {
      var rest := Spaced(ws[1..], gaps[1..]);
      assert Spaced(ws, gaps) == ws[0] + gaps[0] + rest;
      FieldsOfSpacedWords(ws[1..], gaps[1..]);
      if gaps[0] != [] {
        FieldsOfWordGap(ws[0], gaps[0], rest);
      } else {
        assert |ws| == 1 && rest == [];
        assert ws[0] + gaps[0] + rest == ws[0];
        FieldsOfWord(ws[0]);
      }
      assert ws == [ws[0]] + ws[1..];
    }
  }

  /** A single word is its own only field. */
  lemma FieldsOfWord(w: string)
    requires IsWord(w)
    ensures Fields(w) == [w]
  {
    assert WordLength(w) == |w|;
    assert w[..|w|] == w && w[|w|..] == [];
    assert Fields(w) == [w] + Fields([]);
  }

  /** Fields undoes a single-space join of words: the round trip that lets a
      line be written down from its fields. */
  lemma {:induction false} FieldsOfJoin(ws: seq<string>)
    requires forall k :: 0 <= k < |ws| ==> IsWord(ws[k])
    ensures Fields(Join(ws, " ")) == ws
  {
    if |ws| == 1 {
      FieldsOfWord(ws[0]);
    } else if |ws| > 1 {
      var w := ws[0];
      var rest := Join(ws[1..], " ");
      assert Join(ws, " ") == w + " " + rest;
      FieldsOfWordThen(w, rest);
      FieldsOfJoin(ws[1..]);
      assert ws == [w] + ws[1..];
    }
  }

  predicate IsDigit(c: char) {
    '0' <= c <= '9'
  }

  predicate AllDigits(s: string) {
    forall k :: 0 <= k < |s| ==> IsDigit(s[k])
  }

  /** The value of a string of decimal digits, most significant first. */
  function DigitsValue(s: string): nat
    requires AllDigits(s)
  {
    if s == [] then 0 else DigitsValue(s[..|s| - 1]) * 10 + (s[|s| - 1] as int - '0' as int)
  }

  /** strconv.Atoi: an optional sign followed by one or more decimal digits;
      anything else is a syntax error. */
  function Atoi(s: string): (r: Option<int>)
    ensures r.Some? <==>
      s != [] && (AllDigits(s) || ((s[0] == '+' || s[0] == '-') && |s| > 1 && AllDigits(s[1..])))
    ensures s != [] && AllDigits(s) ==> r == Some(DigitsValue(s))
    ensures |s| > 1 && s[0] == '+' && AllDigits(s[1..]) ==> r == Some(DigitsValue(s[1..]))
    ensures |s| > 1 && s[0] == '-' && AllDigits(s[1..]) ==> r == Some(-(DigitsValue(s[1..]) as int))
  {
    if s != [] && (s[0] == '+' || s[0] == '-') then
      var digits := s[1..];
      if digits != [] && AllDigits(digits) then
        var v: int := DigitsValue(digits);
        Some(if s[0] == '-' then -v else v)
      else None
    else if s != [] && AllDigits(s) then Some(DigitsValue(s))
    else None
  }

  function DigitChar(d: nat): (c: char)
    requires d < 10
    ensures IsDigit(c) && c as int - '0' as int == d
  {
    ('0' as int + d) as char
  }

  /** The decimal text of a natural number, as strconv.Itoa writes it. */
  function DecimalText(n: nat): (s: string)
    ensures s != [] && AllDigits(s)
  {
    if n < 10 then [DigitChar(n)] else DecimalText(n / 10) + [DigitChar(n % 10)]
  }

  /** Atoi reads back what DecimalText writes. */
  lemma {:induction false} AtoiDecimalText(n: nat)
    ensures Atoi(DecimalText(n)) == Some(n)
  {
    DigitsValueDecimalText(n);
  }

  lemma {:induction false} DigitsValueDecimalText(n: nat)
    ensures DigitsValue(DecimalText(n)) == n
  {
    var s := DecimalText(n);
    if n < 10 {
      assert s[..0] == [];
    } else {
      DigitsValueDecimalText(n / 10);
      assert s[..|s| - 1] == DecimalText(n / 10);
    }
  }
}
