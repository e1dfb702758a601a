/** The string handling of the command line: `str::trim`,
    `str::split_whitespace` and `str::to_ascii_lowercase`. */
module Tokens {
  /** `char::is_whitespace`: the characters with the Unicode White_Space property. */
  predicate IsWhitespace(c: char) {
    var n := c as int;
    n == 0x20 || 0x09 <= n <= 0x0D || n == 0x85 || n == 0xA0 || n == 0x1680
    || 0x2000 <= n <= 0x200A || n == 0x2028 || n == 0x2029 || n == 0x202F
    || n == 0x205F || n == 0x3000
  }

  predicate AllWhitespace(s: string) {
    forall i :: 0 <= i < |s| ==> IsWhitespace(s[i])
  }

  /** A token: a non-empty run of characters none of which is whitespace. */
  predicate IsWord(t: string) {
    t != [] && forall i :: 0 <= i < |t| ==> !IsWhitespace(t[i])
  }

  /** The length of the run of non-whitespace characters that starts `s`. */
  function WordLength(s: string): (n: nat)
    ensures n <= |s|
    ensures forall i :: 0 <= i < n ==> !IsWhitespace(s[i])
    ensures n < |s| ==> IsWhitespace(s[n])
  {
    if s == [] || IsWhitespace(s[0]) then 0 else 1 + WordLength(s[1..])
  }

  /** `split_whitespace`: the maximal runs of non-whitespace characters, in order. */
  function SplitWhitespace(s: string): (words: seq<string>)
    ensures forall i :: 0 <= i < |words| ==> IsWord(words[i])
    decreases |s|
  {
    if s == [] then []
    else if IsWhitespace(s[0]) then SplitWhitespace(s[1..])
    else
      var n := WordLength(s);
      [s[..n]] + SplitWhitespace(s[n..])
  }

  function TrimStart(s: string): (r: string)
    ensures r == [] || !IsWhitespace(r[0])
  {
    if s != [] && IsWhitespace(s[0]) then TrimStart(s[1..]) else s
  }

  function TrimEnd(s: string): (r: string)
    ensures r == [] || !IsWhitespace(r[|r| - 1])
  {
    if s != [] && IsWhitespace(s[|s| - 1]) then TrimEnd(s[..|s| - 1]) else s
  }

  /** `str::trim`. */
  function Trim(s: string): string {
    TrimEnd(TrimStart(s))
  }

  /** The words joined by single spaces: the way a user types a command. */
  function Join(words: seq<string>): string {
    if words == [] then ""
    else if |words| == 1 then words[0]
    else words[0] + " " + Join(words[1..])
  }

  function Concat(words: seq<string>): string {
    if words == [] then "" else words[0] + Concat(words[1..])
  }

  /** The characters of `s` that are not whitespace, in order. */
  function NonWhitespace(s: string): string {
    if s == [] then "" else (if IsWhitespace(s[0]) then "" else [s[0]]) + NonWhitespace(s[1..])
  }

  function LowerChar(c: char): char {
    if 'A' <= c <= 'Z' then (c as int + 32) as char else c
  }

  /** `str::to_ascii_lowercase`: ASCII capitals become small letters, every
      other character stays. */
  function ToAsciiLower(s: string): (r: string)
    ensures |r| == |s| && forall i :: 0 <= i < |s| ==> r[i] == LowerChar(s[i])
  {
    seq(|s|, i requires 0 <= i < |s| => LowerChar(s[i]))
  }

  /** A word followed by whitespace or by nothing is split off as the first token. */
  lemma SplitWord(t: string, rest: string)
    requires IsWord(t)
    requires rest == [] || IsWhitespace(rest[0])
    ensures SplitWhitespace(t + rest) == [t] + SplitWhitespace(rest)
  {
    var s := t + rest;
    WordLengthOfWord(t, rest);
    assert s[..|t|] == t && s[|t|..] == rest;
  }

  lemma {:induction false} WordLengthOfWord(t: string, rest: string)
    requires forall i :: 0 <= i < |t| ==> !IsWhitespace(t[i])
    requires rest == [] || IsWhitespace(rest[0])
    ensures WordLength(t + rest) == |t|
    decreases |t|
  {
    if t == [] {
      assert t + rest == rest;
    } else {
      assert (t + rest)[1..] == t[1..] + rest;
      WordLengthOfWord(t[1..], rest);
    }
  }

  /** Splitting undoes joining: the words a user types, separated by spaces,
      are exactly the tokens the command line sees. */
  lemma {:induction false} SplitJoin(words: seq<string>)
    requires forall i :: 0 <= i < |words| ==> IsWord(words[i])
    ensures SplitWhitespace(Join(words)) == words
  {
    if words == [] {
    } else if |words| == 1 {
      SplitWord(words[0], "");
      assert words[0] + "" == words[0];
    } else {
      var tail := Join(words[1..]);
      SplitJoin(words[1..]);
      SplitWord(words[0], " " + tail);
      assert words[0] + " " + tail == words[0] + (" " + tail);
      assert (" " + tail)[1..] == tail;
    }
  }

  /** No character is lost or invented: the tokens, put together, are the
      non-whitespace characters of the input in order. */
  lemma {:induction false} SplitKeepsCharacters(s: string)
    ensures Concat(SplitWhitespace(s)) == NonWhitespace(s)
    decreases |s|
  {
    if s == [] {
    } else if IsWhitespace(s[0]) {
      SplitKeepsCharacters(s[1..]);
    } else {
      var n := WordLength(s);
      SplitKeepsCharacters(s[n..]);
      NonWhitespaceOfWord(s, n);
    }
  }

  lemma {:induction false} NonWhitespaceOfWord(s: string, n: nat)
    requires n <= |s| && forall i :: 0 <= i < n ==> !IsWhitespace(s[i])
    ensures NonWhitespace(s) == s[..n] + NonWhitespace(s[n..])
    decreases n
  {
    if n > 0 {
      NonWhitespaceOfWord(s[1..], n - 1);
      assert s[1..][n - 1..] == s[n..];
      assert [s[0]] + s[1..][..n - 1] == s[..n];
    } else {
      assert s[..0] == [] && s[0..] == s;
    }
  }

  /** An input yields no token exactly when it is all whitespace. */
  lemma {:induction false} SplitEmpty(s: string)
    ensures SplitWhitespace(s) == [] <==> AllWhitespace(s)
    decreases |s|
  {
    if s != [] && IsWhitespace(s[0]) {
      SplitEmpty(s[1..]);
      if AllWhitespace(s[1..]) {
        forall i | 0 <= i < |s| ensures IsWhitespace(s[i]) {
          if i > 0 { assert s[i] == s[1..][i - 1]; }
        }
      }
    }
  }

  /** Whitespace after the last token does not change the tokens. */
  lemma {:induction false} SplitIgnoresTrailing(s: string, w: string)
    requires AllWhitespace(w)
    ensures SplitWhitespace(s + w) == SplitWhitespace(s)
    decreases |s|
  {
    if s == [] {
      assert s + w == w;
      SplitEmpty(w);
    } else if IsWhitespace(s[0]) {
      assert (s + w)[1..] == s[1..] + w;
      SplitIgnoresTrailing(s[1..], w);
    } else {
      var n := WordLength(s);
      WordLengthOfWord(s[..n], s[n..] + w);
      assert s + w == s[..n] + (s[n..] + w);
      assert (s + w)[..n] == s[..n] && (s + w)[n..] == s[n..] + w;
      SplitIgnoresTrailing(s[n..], w);
    }
  }

  lemma {:induction false} TrimEndSplits(s: string)
    ensures exists w :: AllWhitespace(w) && s == TrimEnd(s) + w
    decreases |s|
  {
    if s != [] && IsWhitespace(s[|s| - 1]) {
      var s' := s[..|s| - 1];
      TrimEndSplits(s');
      var w :| AllWhitespace(w) && s' == TrimEnd(s') + w;
      var w' := w + [s[|s| - 1]];
      assert AllWhitespace(w');
      assert s == TrimEnd(s) + w';
    } else {
      assert s == TrimEnd(s) + [];
    }
  }

  lemma {:induction false} TrimStartSplit(s: string)
    ensures SplitWhitespace(TrimStart(s)) == SplitWhitespace(s)
    decreases |s|
  {
    if s != [] && IsWhitespace(s[0]) { TrimStartSplit(s[1..]); }
  }

  /** Trimming before splitting changes nothing: the tokens of the trimmed
      input are the tokens of the input. */
  lemma TrimSplit(s: string)
    ensures SplitWhitespace(Trim(s)) == SplitWhitespace(s)
  {
    var t := TrimStart(s);
    TrimEndSplits(t);
    var w :| AllWhitespace(w) && t == TrimEnd(t) + w;
    SplitIgnoresTrailing(TrimEnd(t), w);
    TrimStartSplit(s);
  }

  /** The lower-cased token is "q" exactly for "q" and "Q". */
  lemma LowerIsQ(t: string)
    ensures ToAsciiLower(t) == "q" <==> t == "q" || t == "Q"
  {
    if ToAsciiLower(t) == "q" {
      assert LowerChar(t[0]) == 'q';
    }
  }

  /** The lower-cased token is "page" exactly when the token spells "page" in
      any mix of cases. */
  lemma LowerIsPage(t: string)
    ensures ToAsciiLower(t) == "page" <==>
      |t| == 4 && t[0] in "pP" && t[1] in "aA" && t[2] in "gG" && t[3] in "eE"
  {
    if ToAsciiLower(t) == "page" {
      assert LowerChar(t[0]) == 'p' && LowerChar(t[1]) == 'a';
      assert LowerChar(t[2]) == 'g' && LowerChar(t[3]) == 'e';
    }
  }
}
