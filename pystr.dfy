/**
 * The Python `str` built-ins that the plugin relies on, on `seq<char>`:
 * `split('.')`, `split()`, `strip()`, `lstrip(chars)`, `startswith`,
 * `endswith` and the substring test `in`.
 */
module PyStr {

  /** `str.isspace` for the code points below 0x100. */
  predicate IsSpace(c: char) {
    ('\t' <= c <= '\r') || ('\U{1C}' <= c <= ' ') || c == '\U{85}' || c == '\U{A0}'
  }

  predicate StartsWith(s: string, prefix: string) {
    |prefix| <= |s| && s[..|prefix|] == prefix
  }

  predicate EndsWith(s: string, suffix: string) {
    |suffix| <= |s| && s[|s| - |suffix|..] == suffix
  }

  /** The substring test `sub in s`. */
  predicate Contains(s: string, sub: string) {
    exists i | 0 <= i <= |s| :: StartsWith(s[i..], sub)
  }

  /** `s.split(sep)` for a one-character separator: never empty, separators dropped. */
  function Split(s: string, sep: char): (parts: seq<string>)
    ensures |parts| >= 1
    ensures forall k | 0 <= k < |parts| :: sep !in parts[k]
    decreases |s|
  {
    if s == [] then [""]
    else
      var rest := Split(s[1..], sep);
      if s[0] == sep then [""] + rest
      else [[s[0]] + rest[0]] + rest[1..]
  }

  /** `sep.join(parts)`, the inverse of `Split`. */
  function Join(parts: seq<string>, sep: char): (s: string)
    requires |parts| >= 1
    ensures StartsWith(s, parts[0])
  {
    if |parts| == 1 then parts[0] else parts[0] + ([sep] + Join(parts[1..], sep))
  }

  /** Joining the pieces of a split gives back the original string. */
  lemma {:induction false} JoinSplit(s: string, sep: char)
    ensures Join(Split(s, sep), sep) == s
  {
    if s != [] {
      JoinSplit(s[1..], sep);
      var rest := Split(s[1..], sep);
      if s[0] == sep {
        assert ([""] + rest)[1..] == rest;
      } else if |rest| > 1 {
        var parts := [[s[0]] + rest[0]] + rest[1..];
        assert parts[1..] == rest[1..];
        assert s == [s[0]] + s[1..];
      } else {
        assert s == [s[0]] + s[1..];
      }
    }
  }

  /** Splitting a string that begins with a separator-free word `w`. */
  lemma {:induction false} SplitAfterWord(w: string, t: string, sep: char)
    requires sep !in w
    ensures Split(w + t, sep) == [w + Split(t, sep)[0]] + Split(t, sep)[1..]
  {
    if w != [] {
      var st := Split(t, sep);
      assert w[0] in w;
      assert (w + t)[1..] == w[1..] + t;
      assert (w + t)[0] == w[0];
      SplitAfterWord(w[1..], t, sep);
      var rest := Split(w[1..] + t, sep);
      assert Split(w + t, sep) == [[w[0]] + rest[0]] + rest[1..];
      assert rest[0] == w[1..] + st[0];
      assert rest[1..] == st[1..];
      assert [w[0]] + (w[1..] + st[0]) == w + st[0];
    } else {
      var st := Split(t, sep);
      assert w + t == t;
      assert w + st[0] == st[0];
      assert st == [st[0]] + st[1..];
    }
  }

  /** Splitting a join of separator-free pieces gives back the pieces. */
  lemma {:induction false} SplitJoin(parts: seq<string>, sep: char)
    requires |parts| >= 1
    requires forall k | 0 <= k < |parts| :: sep !in parts[k]
    ensures Split(Join(parts, sep), sep) == parts
  {
    if |parts| == 1 {
      SplitAfterWord(parts[0], [], sep);
      assert Split([], sep) == [""];
      assert parts[0] + [] == parts[0] && parts[0] + "" == parts[0];
      assert parts == [parts[0]];
    } else {
      var tail := Join(parts[1..], sep);
      SplitJoin(parts[1..], sep);
      assert Join(parts, sep) == parts[0] + ([sep] + tail);
      SplitAfterWord(parts[0], [sep] + tail, sep);
      assert ([sep] + tail)[1..] == tail && ([sep] + tail)[0] == sep;
      assert Split([sep] + tail, sep) == [""] + parts[1..];
      assert ([""] + parts[1..])[1..] == parts[1..];
      assert parts[0] + "" == parts[0];
      assert parts == [parts[0]] + parts[1..];
    }
  }

  /** A token of `str.split()`: non-empty and free of whitespace. */
  predicate IsWord(w: string) {
    w != [] && forall i | 0 <= i < |w| :: !IsSpace(w[i])
  }

  /** `s.lstrip()`: drops the leading whitespace. */
  function LStrip(s: string): (r: string)
    ensures |r| <= |s|
    ensures r == [] || !IsSpace(r[0])
    decreases |s|
  {
    if s != [] && IsSpace(s[0]) then LStrip(s[1..]) else s
  }

  /** `s.rstrip()`: drops the trailing whitespace. */
  function RStrip(s: string): (r: string)
    ensures |r| <= |s|
    ensures r == [] || !IsSpace(r[|r| - 1])
    decreases |s|
  {
    if s != [] && IsSpace(s[|s| - 1]) then RStrip(s[..|s| - 1]) else s
  }

  /** `lstrip()` removes a prefix of `s`, and that prefix is all whitespace. */
  lemma {:induction false} LStripMeaning(s: string)
    ensures LStrip(s) == s[|s| - |LStrip(s)|..]
    ensures forall i | 0 <= i < |s| - |LStrip(s)| :: IsSpace(s[i])
    decreases |s|
  {
    if s != [] && IsSpace(s[0]) {
      LStripMeaning(s[1..]);
      assert s[1..][|s| - 1 - |LStrip(s)|..] == s[|s| - |LStrip(s)|..];
      forall i | 1 <= i < |s| - |LStrip(s)| ensures IsSpace(s[i]) {
        assert s[1..][i - 1] == s[i];
      }
    }
  }

  /** `rstrip()` removes a suffix of `s`, and that suffix is all whitespace. */
  lemma {:induction false} RStripMeaning(s: string)
    ensures RStrip(s) == s[..|RStrip(s)|]
    ensures forall i | |RStrip(s)| <= i < |s| :: IsSpace(s[i])
    decreases |s|
  {
    if s != [] && IsSpace(s[|s| - 1]) {
      var init := s[..|s| - 1];
      RStripMeaning(init);
      assert init[..|RStrip(s)|] == s[..|RStrip(s)|];
      forall i | |RStrip(s)| <= i < |s| - 1 ensures IsSpace(s[i]) {
        assert init[i] == s[i];
      }
    }
  }

  /** `s.strip()`. */
  function Strip(s: string): string {
    RStrip(LStrip(s))
  }

  /** A token of `split()` has nothing for `strip()` to remove. */
  lemma StripWord(w: string)
    requires IsWord(w)
    ensures Strip(w) == w
  {
    assert LStrip(w) == w;
    assert !IsSpace(w[|w| - 1]);
  }

  /** `s.lstrip(chars)`: drops every leading character that occurs in `chars`. */
  function LStripChars(s: string, chars: string): (r: string)
    ensures |r| <= |s|
    ensures r == [] || r[0] !in chars
    decreases |s|
  {
    if s != [] && s[0] in chars then LStripChars(s[1..], chars) else s
  }

  /** `lstrip(chars)` removes a prefix of `s` made only of characters of `chars`. */
  lemma {:induction false} LStripCharsMeaning(s: string, chars: string)
    ensures LStripChars(s, chars) == s[|s| - |LStripChars(s, chars)|..]
    ensures forall i | 0 <= i < |s| - |LStripChars(s, chars)| :: s[i] in chars
    decreases |s|
  {
    if s != [] && s[0] in chars {
      LStripCharsMeaning(s[1..], chars);
      assert s[1..][|s| - 1 - |LStripChars(s, chars)|..] == s[|s| - |LStripChars(s, chars)|..];
      forall i | 1 <= i < |s| - |LStripChars(s, chars)| ensures s[i] in chars {
        assert s[1..][i - 1] == s[i];
      }
    }
  }

  /** Length of the longest whitespace-free prefix of `s`. */
  function WordLength(s: string): (n: nat)
    ensures n <= |s|
    ensures forall i | 0 <= i < n :: !IsSpace(s[i])
    ensures n == |s| || IsSpace(s[n])
    decreases |s|
  {
    if s == [] || IsSpace(s[0]) then 0 else 1 + WordLength(s[1..])
  }

  /** `s.split()`: the maximal whitespace-free runs of `s`, in order. */
  function Words(s: string): (words: seq<string>)
    ensures forall k | 0 <= k < |words| :: IsWord(words[k])
    decreases |s|
  {
    var t := LStrip(s);
    if t == [] then []
    else
      var n := WordLength(t);
      [t[..n]] + Words(t[n..])
  }

  lemma {:induction false} WordLengthOfWord(w: string, t: string)
    requires IsWord(w)
    requires t == [] || IsSpace(t[0])
    ensures WordLength(w + t) == |w|
    decreases |w|
  {
    assert (w + t)[0] == w[0];
    if |w| > 1 {
      assert (w + t)[1..] == w[1..] + t;
      assert forall i | 0 <= i < |w| - 1 :: w[1..][i] == w[i + 1];
      WordLengthOfWord(w[1..], t);
    } else {
      assert (w + t)[1..] == t;
    }
  }

  /** A word followed by whitespace (or nothing) is the first token. */
  lemma WordsOfWord(w: string, rest: string)
    requires IsWord(w)
    requires rest == [] || IsSpace(rest[0])
    ensures Words(w + rest) == [w] + Words(rest)
  {
    var s := w + rest;
    assert LStrip(s) == s by { assert s[0] == w[0]; }
    WordLengthOfWord(w, rest);
    assert s[..|w|] == w;
    assert s[|w|..] == rest;
  }

  /** A single space in front of a word-initial string is skipped. */
  lemma WordsAfterSpace(t: string)
    requires t != [] && !IsSpace(t[0])
    ensures Words([' '] + t) == Words(t)
  {
    var u := [' '] + t;
    assert u[1..] == t;
    assert LStrip(u) == LStrip(t) == t;
  }

  lemma WordsAfterWord(w: string, tail: string)
    requires IsWord(w)
    requires tail != [] && !IsSpace(tail[0])
    ensures Words(w + ([' '] + tail)) == [w] + Words(tail)
  {
    WordsOfWord(w, [' '] + tail);
    WordsAfterSpace(tail);
  }

  /** Splitting words joined by single spaces gives back the words. */
  lemma {:induction false} WordsJoin(words: seq<string>)
    requires |words| >= 1
    requires forall k | 0 <= k < |words| :: IsWord(words[k])
    ensures Words(Join(words, ' ')) == words
  {
    var w, rest := words[0], words[1..];
    assert words == [w] + rest;
    if |words| == 1 {
      WordsOfWord(w, []);
      assert w + [] == w;
    } else {
      assert forall k | 0 <= k < |rest| :: rest[k] == words[k + 1];
      WordsJoin(rest);
      JoinCons(w, rest);
    }
  }

  /** The inductive step of `WordsJoin`. */
  lemma JoinCons(w: string, rest: seq<string>)
    requires IsWord(w) && |rest| >= 1 && IsWord(rest[0])
    requires Words(Join(rest, ' ')) == rest
    ensures Words(Join([w] + rest, ' ')) == [w] + rest
  {
    var tail := Join(rest, ' ');
    assert !IsSpace(tail[0]) by {
      assert tail[..|rest[0]|] == rest[0];
      assert tail[0] == rest[0][0];
    }
    WordsAfterWord(w, tail);
    assert ([w] + rest)[1..] == rest;
  }
}
