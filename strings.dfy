/**
 * The parts of Rust's `str` API the xrandr block relies on: `split(char)`,
 * `split_whitespace`, `trim`, `contains` and `u32::to_string`, as functions
 * on `seq<char>` whose contracts characterise them.
 */
module Strings {
  import opened Wrappers

  /** Rust's `char::is_whitespace`: the Unicode White_Space property. */
  predicate IsWhitespace(c: char) {
    var n := c as int;
    (0x09 <= n <= 0x0D) || n == 0x20 || n == 0x85 || n == 0xA0 || n == 0x1680 ||
    (0x2000 <= n <= 0x200A) || n == 0x2028 || n == 0x2029 || n == 0x202F ||
    n == 0x205F || n == 0x3000
  }

  predicate AllWhitespace(s: string) {
    forall i :: 0 <= i < |s| ==> IsWhitespace(s[i])
  }

  predicate NoWhitespace(s: string) {
    forall i :: 0 <= i < |s| ==> !IsWhitespace(s[i])
  }

  // ---------------------------------------------------------------------
  // s.split(sep)
  // ---------------------------------------------------------------------

  /** The pieces glued back together with `sep` between neighbours. */
  function Join(parts: seq<string>, sep: char): string {
    if parts == [] then ""
    else if |parts| == 1 then parts[0]
    else parts[0] + [sep] + Join(parts[1..], sep)
  }

  /**
   * `s.split(sep).collect::<Vec<_>>()`: never empty, no piece holds `sep`,
   * and joining the pieces with `sep` gives `s` back.
   */
  function Split(s: string, sep: char): (parts: seq<string>)
    ensures |parts| >= 1
    ensures forall i :: 0 <= i < |parts| ==> sep !in parts[i]
    ensures Join(parts, sep) == s
  {
    if s == [] then [""]
    else
      var rest := Split(s[1..], sep);
      assert s == [s[0]] + s[1..];
      if s[0] == sep then
        assert ([""] + rest)[1..] == rest;
        [""] + rest
      else
        var parts := [[s[0]] + rest[0]] + rest[1..];
        assert parts[1..] == rest[1..];
        parts
  }

  /**
   * The contract of `Split` determines it: any list of `sep`-free pieces
   * that joins back to `s` is `Split(s, sep)`.
   */
  lemma {:induction false} SplitUnique(s: string, sep: char, parts: seq<string>)
    requires |parts| >= 1
    requires forall i :: 0 <= i < |parts| ==> sep !in parts[i]
    requires Join(parts, sep) == s
    ensures Split(s, sep) == parts
    decreases |s|
  {
    if parts[0] == [] {
      if |parts| > 1 {
        assert s == [sep] + Join(parts[1..], sep);
        assert s[1..] == Join(parts[1..], sep);
        SplitUnique(s[1..], sep, parts[1..]);
        assert parts == [""] + parts[1..];
      }
    } else {
      var head := parts[0];
      var parts' := [head[1..]] + parts[1..];
      assert parts'[1..] == parts[1..];
      assert head == [head[0]] + head[1..];
      if |parts| == 1 {
        assert s == head;
      } else {
        assert s == head + [sep] + Join(parts[1..], sep);
        assert Join(parts', sep) == head[1..] + [sep] + Join(parts[1..], sep);
      }
      assert s[0] == head[0] && s[1..] == Join(parts', sep);
      assert forall i :: 0 <= i < |parts'| ==> sep !in parts'[i];
      SplitUnique(s[1..], sep, parts');
    }
  }

  /** A `sep`-free text before the first `sep` is the first piece. */
  lemma SplitAtSeparator(first: string, sep: char, rest: string)
    requires sep !in first
    ensures Split(first + [sep] + rest, sep) == [first] + Split(rest, sep)
  {
    var parts := [first] + Split(rest, sep);
    assert parts[1..] == Split(rest, sep);
    SplitUnique(first + [sep] + rest, sep, parts);
  }

  /** `s.split(sep).collect::<Vec<_>>().get(k)`. */
  function SplitField(s: string, sep: char, k: nat): Option<string> {
    var parts := Split(s, sep);
    if k < |parts| then Some(parts[k]) else None
  }

  /** There is a second piece exactly when `sep` occurs in `s`. */
  lemma {:induction false} SecondFieldExists(s: string, sep: char)
    ensures SplitField(s, sep, 1).Some? <==> sep in s
  {
    if s != [] {
      SecondFieldExists(s[1..], sep);
      assert s == [s[0]] + s[1..];
    }
  }

  /**
   * `s.split(sep).collect::<Vec<_>>().get(0)`, which always exists: the
   * longest prefix of `s` without `sep`.
   */
  function PrefixBefore(s: string, sep: char): (p: string)
    ensures p <= s && sep !in p
    ensures |p| == |s| || s[|p|] == sep
  {
    var parts := Split(s, sep);
    assert |parts| > 1 ==> s == parts[0] + [sep] + Join(parts[1..], sep);
    parts[0]
  }

  // ---------------------------------------------------------------------
  // s.split_whitespace()
  // ---------------------------------------------------------------------

  /** Length of the run of non-whitespace characters that starts `s`. */
  function WordLength(s: string): (n: nat)
    ensures n <= |s| && NoWhitespace(s[..n])
    ensures n < |s| ==> IsWhitespace(s[n])
  {
    if s == [] || IsWhitespace(s[0]) then 0
    else
      var n := 1 + WordLength(s[1..]);
      assert forall i :: 1 <= i < n ==> s[..n][i] == s[1..][..n - 1][i - 1];
      n
  }

  /**
   * `s.split_whitespace().collect::<Vec<_>>()`: the maximal runs of
   * non-whitespace characters of `s`, in order.
   */
  function Words(s: string): (ws: seq<string>)
    ensures forall i :: 0 <= i < |ws| ==> ws[i] != [] && NoWhitespace(ws[i])
    decreases |s|
  {
    if s == [] then []
    else if IsWhitespace(s[0]) then Words(s[1..])
    else
      var n := WordLength(s);
      [s[..n]] + Words(s[n..])
  }

  /** A string has no words exactly when it is blank. */
  lemma {:induction false} NoWordsIffBlank(s: string)
    ensures Words(s) == [] <==> AllWhitespace(s)
    decreases |s|
  {
    if s != [] && IsWhitespace(s[0]) {
      NoWordsIffBlank(s[1..]);
      assert forall i :: 1 <= i < |s| ==> s[i] == s[1..][i - 1];
    }
  }

  /** Leading whitespace contributes no word. */
  lemma {:induction false} WordsAfterBlank(pad: string, s: string)
    requires AllWhitespace(pad)
    ensures Words(pad + s) == Words(s)
  {
    if pad != [] {
      assert (pad + s)[1..] == pad[1..] + s;
      WordsAfterBlank(pad[1..], s);
    } else {
      assert pad + s == s;
    }
  }

  /** A word that ends at whitespace or at the end is read whole, first. */
  lemma WordsOfWordThen(w: string, rest: string)
    requires w != [] && NoWhitespace(w)
    requires rest == [] || IsWhitespace(rest[0])
    ensures Words(w + rest) == [w] + Words(rest)
  {
    WordLengthOfWord(w, rest);
    assert (w + rest)[..|w|] == w && (w + rest)[|w|..] == rest;
  }

  /** A word followed by nothing or by whitespace is read whole. */
  lemma {:induction false} WordLengthOfWord(t: string, u: string)
    requires NoWhitespace(t)
    requires u == [] || IsWhitespace(u[0])
    ensures WordLength(t + u) == |t|
  {
    if t == [] {
      assert t + u == u;
    } else {
      assert (t + u)[1..] == t[1..] + u;
      WordLengthOfWord(t[1..], u);
    }
  }

  /** Splitting a space-separated list of words gives the words back. */
  lemma {:induction false} WordsOfJoin(ws: seq<string>)
    requires forall i :: 0 <= i < |ws| ==> ws[i] != [] && NoWhitespace(ws[i])
    ensures Words(Join(ws, ' ')) == ws
  {
    if ws == [] {
    } else if |ws| == 1 {
      WordLengthOfWord(ws[0], []);
      assert ws[0] + [] == ws[0];
      assert ws[0][|ws[0]|..] == [];
    } else {
      var w := ws[0];
      var rest := Join(ws[1..], ' ');
      var s := w + [' '] + rest;
      assert Join(ws, ' ') == s;
      assert s == w + ([' '] + rest);
      WordLengthOfWord(w, [' '] + rest);
      assert s[..|w|] == w;
      assert s[|w|..] == [' '] + rest;
      assert ([' '] + rest)[1..] == rest;
      WordsOfJoin(ws[1..]);
      assert Words(s) == [w] + ws[1..];
    }
  }

  /**
   * The last word of a non-blank string is followed only by whitespace and
   * preceded by whitespace or by nothing.
   */
  lemma {:induction false} LastWordSplit(s: string) returns (pre: string, post: string)
    requires Words(s) != []
    ensures s == pre + Words(s)[|Words(s)| - 1] + post
    ensures AllWhitespace(post)
    ensures pre == [] || IsWhitespace(pre[|pre| - 1])
    ensures pre == [] ==> !IsWhitespace(s[0])
    decreases |s|, 1
  {
    if IsWhitespace(s[0]) {
      pre, post := LastWordAfterBlank(s);
    } else {
      var n := WordLength(s);
      if Words(s[n..]) == [] {
        pre, post := LastWordIsFirst(s, n);
      } else {
        pre, post := LastWordAfterFirst(s, n);
      }
    }
  }

  /** The step of `LastWordSplit` past leading whitespace. */
  lemma {:induction false} LastWordAfterBlank(s: string) returns (pre: string, post: string)
    requires Words(s) != [] && IsWhitespace(s[0])
    ensures s == pre + Words(s)[|Words(s)| - 1] + post
    ensures AllWhitespace(post)
    ensures pre != [] && IsWhitespace(pre[|pre| - 1])
    decreases |s|, 0
  {
    var t := s[1..];
    assert Words(s) == Words(t);
    var pre', post' := LastWordSplit(t);
    var w := Words(t)[|Words(t)| - 1];
    pre, post := [s[0]] + pre', post';
    if pre' == [] {
      assert pre == [s[0]];
    } else {
      assert pre[|pre| - 1] == pre'[|pre'| - 1];
    }
    assert s == [s[0]] + t;
    assert [s[0]] + (pre' + w + post') == pre + w + post;
  }

  /** `LastWordSplit` when the first word is the only one. */
  lemma LastWordIsFirst(s: string, n: nat) returns (pre: string, post: string)
    requires s != [] && !IsWhitespace(s[0]) && n == WordLength(s) && Words(s[n..]) == []
    ensures s == pre + Words(s)[|Words(s)| - 1] + post
    ensures AllWhitespace(post) && pre == []
  {
    var rest := s[n..];
    assert Words(s) == [s[..n]] + Words(rest);
    NoWordsIffBlank(rest);
    pre, post := [], rest;
    assert s == s[..n] + rest;
  }

  /** The step of `LastWordSplit` past a first word of length `n`, when more words follow. */
  lemma {:induction false} LastWordAfterFirst(s: string, n: nat) returns (pre: string, post: string)
    requires s != [] && !IsWhitespace(s[0]) && n == WordLength(s) && Words(s[n..]) != []
    ensures s == pre + Words(s)[|Words(s)| - 1] + post
    ensures AllWhitespace(post)
    ensures pre != [] && IsWhitespace(pre[|pre| - 1])
    decreases |s|, 0
  {
    var rest := s[n..];
    assert Words(s) == [s[..n]] + Words(rest);
    var pre', post' := LastWordSplit(rest);
    assert IsWhitespace(rest[0]);
    pre, post := s[..n] + pre', post';
    var last := Words(rest)[|Words(rest)| - 1];
    assert Words(s)[|Words(s)| - 1] == last;
    assert s == s[..n] + rest;
    assert s == s[..n] + (pre' + last + post');
  }

  // ---------------------------------------------------------------------
  // s.trim()
  // ---------------------------------------------------------------------

  /** `s.trim_start()`: drops the leading whitespace. */
  function TrimStart(s: string): (r: string)
    ensures |r| <= |s| && r == s[|s| - |r|..]
    ensures AllWhitespace(s[..|s| - |r|])
    ensures r == [] || !IsWhitespace(r[0])
  {
    if s != [] && IsWhitespace(s[0]) then
      TrimStart(s[1..])
    else s
  }

  /** `s.trim_end()`: drops the trailing whitespace. */
  function TrimEnd(s: string): (r: string)
    ensures r <= s
    ensures AllWhitespace(s[|r|..])
    ensures r == [] || !IsWhitespace(r[|r| - 1])
  {
    if s != [] && IsWhitespace(s[|s| - 1]) then
      var r := TrimEnd(s[..|s| - 1]);
      assert forall i :: |r| <= i < |s| - 1 ==> s[i] == s[..|s| - 1][i];
      r
    else s
  }

  /** `s.trim()`: neither end of the result is whitespace. */
  function Trim(s: string): (r: string)
    ensures r == [] || (!IsWhitespace(r[0]) && !IsWhitespace(r[|r| - 1]))
    ensures NoWhitespace(s) ==> r == s
  {
    TrimEnd(TrimStart(s))
  }

  /** `s.trim()` removes whitespace from the two ends and nothing else. */
  lemma TrimSplit(s: string) returns (lead: string, trail: string)
    ensures s == lead + Trim(s) + trail
    ensures AllWhitespace(lead) && AllWhitespace(trail)
  {
    var t := TrimStart(s);
    var r := TrimEnd(t);
    lead, trail := s[..|s| - |t|], t[|r|..];
    Reassemble(s, lead, t, r, trail);
  }

  lemma Reassemble(s: string, lead: string, t: string, r: string, trail: string)
    requires |t| <= |s| && t == s[|s| - |t|..] && lead == s[..|s| - |t|]
    requires r <= t && trail == t[|r|..]
    ensures s == lead + r + trail
  {
    assert t == r + trail;
    assert s == lead + t;
  }

  // ---------------------------------------------------------------------
  // s.contains(pattern)
  // ---------------------------------------------------------------------

  /** `haystack.contains(needle)`: `needle` occurs somewhere in `haystack`. */
  predicate Contains(haystack: string, needle: string) {
    exists i :: 0 <= i <= |haystack| - |needle| && OccursAt(haystack, needle, i)
  }

  predicate OccursAt(haystack: string, needle: string, i: nat)
    requires i + |needle| <= |haystack|
  {
    haystack[i..i + |needle|] == needle
  }

  /** A text contains each of its infixes. */
  lemma ContainsInfix(pre: string, needle: string, post: string)
    ensures Contains(pre + needle + post, needle)
  {
    var s := pre + needle + post;
    assert s[|pre|..|pre| + |needle|] == needle;
    assert OccursAt(s, needle, |pre|);
  }

  // ---------------------------------------------------------------------
  // n.to_string()
  // ---------------------------------------------------------------------

  predicate IsDecimal(s: string) {
    forall i :: 0 <= i < |s| ==> '0' <= s[i] <= '9'
  }

  function DigitChar(d: nat): (c: char)
    requires d < 10
    ensures '0' <= c <= '9' && c as int - '0' as int == d
  {
    ('0' as int + d) as char
  }

  /** The value a string of decimal digits denotes. */
  function DecimalValue(s: string): nat
    requires IsDecimal(s)
  {
    if s == [] then 0
    else 10 * DecimalValue(s[..|s| - 1]) + (s[|s| - 1] as int - '0' as int)
  }

  /** `n.to_string()`: decimal digits, without leading zeros. */
  function NatToString(n: nat): string {
    if n < 10 then [DigitChar(n)]
    else NatToString(n / 10) + [DigitChar(n % 10)]
  }

  /** `n.to_string()` is a nonempty string of digits that starts with `0` only for zero. */
  lemma {:induction false} NatToStringDigits(n: nat)
    ensures NatToString(n) != [] && IsDecimal(NatToString(n))
    ensures NatToString(n)[0] == '0' ==> n == 0 && |NatToString(n)| == 1
  {
    if n >= 10 {
      NatToStringDigits(n / 10);
      var s := NatToString(n);
      assert s[0] == NatToString(n / 10)[0];
    }
  }

  /** Reading back the digits of `n.to_string()` gives `n`. */
  lemma {:induction false} NatToStringRoundTrip(n: nat)
    ensures IsDecimal(NatToString(n)) && DecimalValue(NatToString(n)) == n
  {
    NatToStringDigits(n);
    if n >= 10 {
      var s := NatToString(n);
      assert s[..|s| - 1] == NatToString(n / 10);
      NatToStringRoundTrip(n / 10);
    }
  }
}
