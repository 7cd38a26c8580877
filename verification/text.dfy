/**
 * Character and string facts shared by the shell's modules: Rust's notion of
 * whitespace, `trim`, `split_whitespace`, `split(char)`, `contains`, and the
 * UTF-8 byte length that Rust's `String::len` reports.
 */
module Text {

  /** Rust's `char::is_whitespace`: the Unicode White_Space property, listed in full. */
  predicate IsWhitespace(c: char) {
    c == ' ' || ('\t' <= c <= '\r') || c == '\U{85}' || c == '\U{A0}' || c == '\U{1680}'
    || ('\U{2000}' <= c <= '\U{200A}') || c == '\U{2028}' || c == '\U{2029}'
    || c == '\U{202F}' || c == '\U{205F}' || c == '\U{3000}'
  }

  predicate AllWhitespace(s: string) {
    forall i :: 0 <= i < |s| ==> IsWhitespace(s[i])
  }

  predicate NoWhitespace(s: string) {
    forall i :: 0 <= i < |s| ==> !IsWhitespace(s[i])
  }

  /** Rust's `trim_start`: drops the leading whitespace run. */
  function TrimStart(s: string): (r: string)
    ensures |r| <= |s| && r == s[|s| - |r|..]
    ensures r == [] || !IsWhitespace(r[0])
    ensures AllWhitespace(s[..|s| - |r|])
    decreases |s|
  {
    if s != [] && IsWhitespace(s[0]) then TrimStart(s[1..]) else s
  }

  /** Rust's `trim_end`: drops the trailing whitespace run. */
  function TrimEnd(s: string): (r: string)
    ensures r <= s
    ensures r == [] || !IsWhitespace(r[|r| - 1])
    ensures AllWhitespace(s[|r|..])
    decreases |s|
  {
    if s != [] && IsWhitespace(s[|s| - 1]) then TrimEnd(s[..|s| - 1]) else s
  }

  /** Rust's `trim`: what is left starts and ends with a character that is not whitespace. */
  function Trim(s: string): (r: string)
    ensures r == [] || (!IsWhitespace(r[0]) && !IsWhitespace(r[|r| - 1]))
  {
    TrimEnd(TrimStart(s))
  }

  /** `s.trim().is_empty()` holds exactly for whitespace-only text. */
  lemma TrimEmptyIff(s: string)
    ensures Trim(s) == [] <==> AllWhitespace(s)
  {
    var t := TrimStart(s);
    assert s == s[..|s| - |t|] + t;
    if Trim(s) == [] {
      assert AllWhitespace(t[|Trim(s)|..]);
      assert t[|Trim(s)|..] == t;
    } else {
      var r := Trim(s);
      assert !IsWhitespace(t[0]);
      assert s[|s| - |t|] == t[0];
    }
  }

  /** Length of the leading run of non-whitespace characters. */
  function WordEnd(s: string): (n: nat)
    ensures n <= |s| && NoWhitespace(s[..n]) && (n == |s| || IsWhitespace(s[n]))
  {
    if s == [] || IsWhitespace(s[0]) then 0 else 1 + WordEnd(s[1..])
  }

  /** Rust's `split_whitespace`: the maximal runs of non-whitespace, in order. */
  function SplitWhitespace(s: string): (words: seq<string>)
    ensures AreWords(words)
    decreases |s|
  {
    var t := TrimStart(s);
    if t == [] then []
    else
      var n := WordEnd(t);
      WordEndPositive(t);
      var rest := SplitWhitespace(t[n..]);
      PrependWord(t[..n], rest);
      [t[..n]] + rest
  }

  /** Every entry is a non-empty run of non-whitespace. */
  predicate AreWords(words: seq<string>) {
    forall i :: 0 <= i < |words| ==> words[i] != [] && NoWhitespace(words[i])
  }

  lemma WordEndPositive(t: string)
    requires t != [] && !IsWhitespace(t[0])
    ensures WordEnd(t) > 0
  {
  }

  lemma PrependWord(w: string, rest: seq<string>)
    requires w != [] && NoWhitespace(w) && AreWords(rest)
    ensures AreWords([w] + rest)
  {
    var ws := [w] + rest;
    forall i | 0 <= i < |ws| ensures ws[i] != [] && NoWhitespace(ws[i]) {
      if i > 0 {
        assert ws[i] == rest[i - 1];
      }
    }
  }

  /** The text with every whitespace character removed. */
  function Squeeze(s: string): (r: string)
    ensures NoWhitespace(r)
  {
    if s == [] then [] else (if IsWhitespace(s[0]) then [] else [s[0]]) + Squeeze(s[1..])
  }

  /** The strings one after the other. */
  function Concat(words: seq<string>): string {
    if words == [] then [] else words[0] + Concat(words[1..])
  }

  /** Concatenation distributes over appending lists of strings. */
  lemma {:induction false} ConcatAppend(a: seq<string>, b: seq<string>)
    ensures Concat(a + b) == Concat(a) + Concat(b)
    decreases |a|
  {
    if a == [] {
      assert a + b == b;
    } else {
      assert (a + b)[0] == a[0];
      assert (a + b)[1..] == a[1..] + b;
      ConcatAppend(a[1..], b);
    }
  }

  lemma {:induction false} SqueezeAppend(a: string, b: string)
    ensures Squeeze(a + b) == Squeeze(a) + Squeeze(b)
    decreases |a|
  {
    if a == [] {
      assert a + b == b;
    } else {
      assert (a + b)[0] == a[0];
      assert (a + b)[1..] == a[1..] + b;
      SqueezeAppend(a[1..], b);
    }
  }

  lemma {:induction false} SqueezeAllWhitespace(s: string)
    requires AllWhitespace(s)
    ensures Squeeze(s) == []
    decreases |s|
  {
    if s != [] { SqueezeAllWhitespace(s[1..]); }
  }

  lemma {:induction false} SqueezeNoWhitespace(s: string)
    requires NoWhitespace(s)
    ensures Squeeze(s) == s
    decreases |s|
  {
    if s != [] { SqueezeNoWhitespace(s[1..]); }
  }

  lemma SqueezeTrimStart(s: string)
    ensures Squeeze(s) == Squeeze(TrimStart(s))
  {
    var t := TrimStart(s);
    var lead := s[..|s| - |t|];
    assert s == lead + t;
    SqueezeAppend(lead, t);
    SqueezeAllWhitespace(lead);
  }

  lemma SqueezeWord(t: string)
    ensures Squeeze(t) == t[..WordEnd(t)] + Squeeze(t[WordEnd(t)..])
  {
    var n := WordEnd(t);
    assert t == t[..n] + t[n..];
    SqueezeAppend(t[..n], t[n..]);
    SqueezeNoWhitespace(t[..n]);
  }

  /**
   * `split_whitespace` loses only whitespace: its words, glued together, are the
   * input with its whitespace removed. With the ensures of SplitWhitespace (words are
   * non-empty and whitespace-free) this pins the words down.
   */
  lemma {:induction false} SplitWhitespaceKeepsText(s: string)
    ensures Concat(SplitWhitespace(s)) == Squeeze(s)
    decreases |s|
  {
    var t := TrimStart(s);
    SqueezeTrimStart(s);
    if t != [] {
      var n := WordEnd(t);
      assert n > 0 by { assert !IsWhitespace(t[0]); }
      var rest := SplitWhitespace(t[n..]);
      assert SplitWhitespace(s) == [t[..n]] + rest;
      SqueezeWord(t);
      SplitWhitespaceKeepsText(t[n..]);
      assert ([t[..n]] + rest)[1..] == rest;
    }
  }

  /** A character of one of the strings is a character of their concatenation. */
  lemma {:induction false} InConcat(words: seq<string>, k: nat, c: char)
    requires k < |words| && c in words[k]
    ensures c in Concat(words)
    decreases k
  {
    if k > 0 {
      InConcat(words[1..], k - 1, c);
    }
  }

  /** `Squeeze` only removes characters. */
  lemma {:induction false} SqueezeChars(s: string, c: char)
    requires c in Squeeze(s)
    ensures c in s
    decreases |s|
  {
    if s != [] && c != s[0] {
      SqueezeChars(s[1..], c);
    }
  }

  /** Every character of a word of `split_whitespace` comes from the text. */
  lemma SplitWhitespaceChars(s: string, k: nat, c: char)
    requires k < |SplitWhitespace(s)| && c in SplitWhitespace(s)[k]
    ensures c in s
  {
    InConcat(SplitWhitespace(s), k, c);
    SplitWhitespaceKeepsText(s);
    SqueezeChars(s, c);
  }

  /** `split_whitespace` yields nothing exactly for whitespace-only text. */
  lemma SplitWhitespaceEmptyIff(s: string)
    ensures SplitWhitespace(s) == [] <==> AllWhitespace(s)
  {
    var t := TrimStart(s);
    assert s == s[..|s| - |t|] + t;
    if t != [] {
      assert s[|s| - |t|] == t[0];
    }
  }

  /** Leading whitespace in front of text that has a non-whitespace character is all `trim_start` drops. */
  lemma {:induction false} TrimStartAppend(a: string, b: string)
    requires !AllWhitespace(a)
    ensures TrimStart(a + b) == TrimStart(a) + b
    decreases |a|
  {
    assert (a + b)[0] == a[0];
    if IsWhitespace(a[0]) {
      var i :| 0 <= i < |a| && !IsWhitespace(a[i]);
      assert a[1..][i - 1] == a[i];
      assert (a + b)[1..] == a[1..] + b;
      TrimStartAppend(a[1..], b);
    }
  }

  /** Appending text that begins with whitespace leaves the first word where it was. */
  lemma {:induction false} WordEndAppend(t: string, w: string)
    requires WordEnd(t) < |t| || w == [] || IsWhitespace(w[0])
    ensures WordEnd(t + w) == WordEnd(t)
    decreases |t|
  {
    if t == [] {
      assert t + w == w;
    } else {
      assert (t + w)[0] == t[0];
      if !IsWhitespace(t[0]) {
        assert (t + w)[1..] == t[1..] + w;
        WordEndAppend(t[1..], w);
      }
    }
  }

  /** The first word of text that has one, and the words after it. */
  lemma SplitWhitespaceFirst(s: string)
    requires !AllWhitespace(s)
    ensures var t := TrimStart(s);
      t != [] && 0 < WordEnd(t) &&
      SplitWhitespace(s) == [t[..WordEnd(t)]] + SplitWhitespace(t[WordEnd(t)..])
  {
    var t := TrimStart(s);
    assert !IsWhitespace(t[0]);
  }

  /** Trailing whitespace does not change the words. */
  lemma {:induction false} SplitWhitespaceAppendSpace(s: string, w: string)
    requires AllWhitespace(w)
    ensures SplitWhitespace(s + w) == SplitWhitespace(s)
    decreases |s|
  {
    if AllWhitespace(s) {
      assert AllWhitespace(s + w);
      SplitWhitespaceEmptyIff(s);
      SplitWhitespaceEmptyIff(s + w);
    } else {
      var t := TrimStart(s);
      var n := WordEnd(t);
      SplitWhitespaceAppendSpaceStep(s, w);
      SplitWhitespaceAppendSpace(t[n..], w);
    }
  }

  /** One step of the above: the first word is unchanged and the rest gets the same whitespace appended. */
  lemma SplitWhitespaceAppendSpaceStep(s: string, w: string)
    requires AllWhitespace(w) && !AllWhitespace(s)
    ensures var t := TrimStart(s);
      0 < WordEnd(t) &&
      SplitWhitespace(s) == [t[..WordEnd(t)]] + SplitWhitespace(t[WordEnd(t)..]) &&
      SplitWhitespace(s + w) == [t[..WordEnd(t)]] + SplitWhitespace(t[WordEnd(t)..] + w)
  {
    var t := TrimStart(s);
    assert !AllWhitespace(s + w) by {
      var i :| 0 <= i < |s| && !IsWhitespace(s[i]);
      assert (s + w)[i] == s[i];
    }
    SplitWhitespaceFirst(s);
    SplitWhitespaceFirst(s + w);
    TrimStartAppend(s, w);
    var n := WordEnd(t);
    WordEndAppend(t, w);
    SliceAppend(t, w, n);
  }

  lemma SliceAppend(t: string, w: string, n: nat)
    requires n <= |t|
    ensures (t + w)[..n] == t[..n] && (t + w)[n..] == t[n..] + w
  {
  }

  /** Splitting the trimmed text gives the same words as splitting the text. */
  lemma SplitWhitespaceTrim(s: string)
    ensures SplitWhitespace(Trim(s)) == SplitWhitespace(s)
  {
    var t := TrimStart(s);
    SplitWhitespaceTrimStart(s);
    TrimEndSplit(t);
    SplitWhitespaceAppendSpace(TrimEnd(t), t[|TrimEnd(t)|..]);
  }

  /** Leading whitespace does not change the words. */
  lemma SplitWhitespaceTrimStart(s: string)
    ensures SplitWhitespace(TrimStart(s)) == SplitWhitespace(s)
  {
    TrimStartIdempotent(s);
  }

  lemma TrimStartIdempotent(s: string)
    ensures TrimStart(TrimStart(s)) == TrimStart(s)
  {
  }

  /** Text is its `trim_end` followed by the whitespace dropped. */
  lemma TrimEndSplit(t: string)
    ensures t == TrimEnd(t) + t[|TrimEnd(t)|..]
    ensures AllWhitespace(t[|TrimEnd(t)|..])
  {
  }

  /** A word with no whitespace is one run. */
  lemma {:induction false} WordEndNoWhitespace(a: string)
    requires NoWhitespace(a)
    ensures WordEnd(a) == |a|
    decreases |a|
  {
    if a != [] {
      WordEndNoWhitespace(a[1..]);
    }
  }

  /** Two words separated by one space split into exactly those two words. */
  lemma SplitTwoWords(a: string, b: string)
    requires a != [] && b != [] && NoWhitespace(a) && NoWhitespace(b)
    ensures SplitWhitespace(a + " " + b) == [a, b]
  {
    AppendAssoc(a, " ", b);
    SplitPrefixWord(a, " " + b);
    SplitSpaceWord(b);
    PairOfWords(a, b);
  }

  lemma PairOfWords(a: string, b: string)
    ensures [a] + [b] == [a, b]
  {
  }

  /** Appending is associative. */
  lemma AppendAssoc<T>(a: seq<T>, b: seq<T>, c: seq<T>)
    ensures a + (b + c) == (a + b) + c
  {
  }

  /** A word followed by text that starts with whitespace (or nothing) is the first word. */
  lemma SplitPrefixWord(a: string, w: string)
    requires a != [] && NoWhitespace(a) && (w == [] || IsWhitespace(w[0]))
    ensures SplitWhitespace(a + w) == [a] + SplitWhitespace(w)
  {
    WordEndNoWhitespace(a);
    WordEndAppend(a, w);
    SliceAppend(a, w, |a|);
    assert !IsWhitespace(a[0]);
    SplitAt(a + w, |a|);
  }

  /** Text that starts with a word of length `n` splits into that word and the words after it. */
  lemma SplitAt(s: string, n: nat)
    requires s != [] && !IsWhitespace(s[0]) && n == WordEnd(s)
    ensures SplitWhitespace(s) == [s[..n]] + SplitWhitespace(s[n..])
  {
    assert TrimStart(s) == s;
  }

  /** A space followed by one word splits into that word. */
  lemma SplitSpaceWord(b: string)
    requires b != [] && NoWhitespace(b)
    ensures SplitWhitespace(" " + b) == [b]
  {
    var s := " " + b;
    assert s[1..] == b;
    assert TrimStart(s) == b;
    WordEndNoWhitespace(b);
    assert b[..|b|] == b && b[|b|..] == [];
  }

  /** One word splits into itself. */
  lemma SplitOneWord(b: string)
    requires b != [] && NoWhitespace(b)
    ensures SplitWhitespace(b) == [b]
  {
    SplitSpaceWord(b);
    assert (" " + b)[1..] == b;
    assert TrimStart(" " + b) == TrimStart(b);
  }

  /** Text that ends with non-whitespace is its own `trim_end`. */
  lemma TrimEndUnchanged(s: string)
    requires s != [] && !IsWhitespace(s[|s| - 1])
    ensures TrimEnd(s) == s
  {
  }

  /** Text that starts and ends with non-whitespace is its own trim. */
  lemma TrimUnchanged(s: string)
    requires s != [] && !IsWhitespace(s[0]) && !IsWhitespace(s[|s| - 1])
    ensures Trim(s) == s
  {
    assert TrimStart(s) == s;
  }

  /** Trimming twice trims no more than trimming once. */
  lemma TrimIdempotent(s: string)
    ensures Trim(Trim(s)) == Trim(s)
  {
    var r := Trim(s);
    if r != [] {
      assert r[0] == TrimStart(s)[0];
      TrimUnchanged(r);
    }
  }

  /** Number of occurrences of `c` in `s`. */
  function Count(s: string, c: char): nat {
    if s == [] then 0 else (if s[0] == c then 1 else 0) + Count(s[1..], c)
  }

  /** Rust's `str::split(c)`: the pieces between occurrences of `c`, empty ones included. */
  function Split(s: string, sep: char): (parts: seq<string>)
    ensures |parts| == Count(s, sep) + 1
    ensures forall i :: 0 <= i < |parts| ==> sep !in parts[i]
  {
    if s == [] then [[]]
    else
      var rest := Split(s[1..], sep);
      if s[0] == sep then [[]] + rest else [[s[0]] + rest[0]] + rest[1..]
  }

  /** Rust's `join` with a one-character separator. */
  function Join(parts: seq<string>, sep: char): string {
    if |parts| == 0 then []
    else if |parts| == 1 then parts[0]
    else parts[0] + [sep] + Join(parts[1..], sep)
  }

  /** Text without the separator is one piece. */
  lemma {:induction false} NoSeparatorOnePiece(s: string, sep: char)
    requires sep !in s
    ensures Split(s, sep) == [s]
    decreases |s|
  {
    if s != [] {
      NoSeparatorOnePiece(s[1..], sep);
      assert [s[0]] + s[1..] == s;
    }
  }

  /** Joining a piece in front of others. */
  lemma JoinCons(p: string, ps: seq<string>, sep: char)
    ensures Join([p] + ps, sep) == if ps == [] then p else p + [sep] + Join(ps, sep)
  {
    assert ([p] + ps)[1..] == ps;
  }

  /** Splitting loses nothing: joining the pieces with the separator rebuilds the text. */
  lemma {:induction false} JoinSplit(s: string, sep: char)
    ensures Join(Split(s, sep), sep) == s
    decreases |s|
  {
    if s != [] {
      var rest := Split(s[1..], sep);
      JoinSplit(s[1..], sep);
      assert s == [s[0]] + s[1..];
      assert rest == [rest[0]] + rest[1..];
      JoinCons(rest[0], rest[1..], sep);
      if s[0] == sep {
        JoinCons([], rest, sep);
      } else {
        JoinCons([s[0]] + rest[0], rest[1..], sep);
        if rest[1..] != [] {
          AppendAssoc([s[0]], rest[0], [sep] + Join(rest[1..], sep));
          AppendAssoc(rest[0], [sep], Join(rest[1..], sep));
          AppendAssoc([s[0]] + rest[0], [sep], Join(rest[1..], sep));
        }
      }
    }
  }

  /** Rust's `str::contains(pat)`: `pat` occurs somewhere in `s` (the empty pattern always does). */
  predicate Contains(s: string, pat: string)
    decreases |s|
  {
    pat <= s || (s != [] && Contains(s[1..], pat))
  }

  /** `Contains` means an occurrence at some offset. */
  lemma {:induction false} ContainsAt(s: string, pat: string)
    ensures Contains(s, pat) <==> exists i :: 0 <= i <= |s| && pat <= s[i..]
    decreases |s|
  {
    if s != [] {
      ContainsAt(s[1..], pat);
      if exists i :: 0 <= i <= |s| && pat <= s[i..] {
        var i :| 0 <= i <= |s| && pat <= s[i..];
        if i > 0 { assert s[1..][i - 1..] == s[i..]; }
      }
      if Contains(s[1..], pat) {
        var i :| 0 <= i <= |s[1..]| && pat <= s[1..][i..];
        assert s[1..][i..] == s[i + 1..];
      }
    }
  }

  /** Number of bytes UTF-8 uses for `c`. */
  function Utf8Len(c: char): (n: nat)
    ensures 1 <= n <= 4
  {
    if c < '\U{80}' then 1 else if c < '\U{800}' then 2 else if c < '\U{10000}' then 3 else 4
  }

  /** Rust's `String::len`: the UTF-8 byte length. */
  function ByteLen(s: string): (n: nat)
    ensures n >= |s|
  {
    if s == [] then 0 else Utf8Len(s[0]) + ByteLen(s[1..])
  }

  predicate IsAscii(s: string) {
    forall i :: 0 <= i < |s| ==> s[i] < '\U{80}'
  }

  /** For ASCII text, bytes and characters coincide. */
  lemma {:induction false} AsciiByteLen(s: string)
    requires IsAscii(s)
    ensures ByteLen(s) == |s|
  {
    if s != [] { AsciiByteLen(s[1..]); }
  }

  lemma {:induction false} ByteLenAppend(a: string, b: string)
    ensures ByteLen(a + b) == ByteLen(a) + ByteLen(b)
    decreases |a|
  {
    if a == [] {
      assert a + b == b;
    } else {
      assert (a + b)[0] == a[0] && (a + b)[1..] == a[1..] + b;
      ByteLenAppend(a[1..], b);
    }
  }

  /** A prefix takes no more bytes than the whole, and the same number only when it is the whole. */
  lemma ByteLenPrefix(a: string, b: string)
    requires a <= b
    ensures ByteLen(a) <= ByteLen(b)
    ensures ByteLen(a) == ByteLen(b) <==> a == b
  {
    assert b == a + b[|a|..];
    ByteLenAppend(a, b[|a|..]);
  }

  function Min(a: nat, b: nat): nat {
    if a <= b then a else b
  }
}
