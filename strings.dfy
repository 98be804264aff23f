/** The parts of Python's `str` and `os.path` behaviour the pipeline relies on:
    whitespace, the strip family, whitespace splitting and joining, stripping a
    trailing run of given characters, decimal rendering of a counter and POSIX
    path joining. */
module Strings {

  /** Python's `str.isspace()` for one character: the characters that
      `split()`, `strip()` and `rstrip()` without arguments treat as whitespace. */
  predicate IsSpace(c: char) {
    || ('\t' <= c <= '\r')
    || ('\U{1C}' <= c <= '\U{1F}')
    || c == ' '
    || c == '\U{85}'
    || c == '\U{A0}'
    || c == '\U{1680}'
    || ('\U{2000}' <= c <= '\U{200A}')
    || c == '\U{2028}'
    || c == '\U{2029}'
    || c == '\U{202F}'
    || c == '\U{205F}'
    || c == '\U{3000}'
  }

  /** `s.rstrip()`: the longest prefix of `s` that does not end in whitespace. */
  function RStrip(s: string): (r: string)
    ensures r <= s
    ensures r == [] || !IsSpace(r[|r| - 1])
    ensures forall i :: |r| <= i < |s| ==> IsSpace(s[i])
  {
    if s != [] && IsSpace(s[|s| - 1]) then RStrip(s[..|s| - 1]) else s
  }

  /** `s.lstrip()`: `s` without its leading whitespace. */
  function LStrip(s: string): (r: string)
    ensures |r| <= |s| && r == s[|s| - |r|..]
    ensures r == [] || !IsSpace(r[0])
    ensures forall i :: 0 <= i < |s| - |r| ==> IsSpace(s[i])
  {
    if s != [] && IsSpace(s[0]) then LStrip(s[1..]) else s
  }

  /** `s.strip()`. */
  function Strip(s: string): (r: string)
    ensures r == [] || (!IsSpace(r[0]) && !IsSpace(r[|r| - 1]))
    ensures (r == []) == (forall i :: 0 <= i < |s| ==> IsSpace(s[i]))
  {
    var t := RStrip(s);
    assert t == [] ==> forall i :: 0 <= i < |s| ==> IsSpace(s[i]);
    LStrip(t)
  }

  /** `strip()` cuts out a middle piece of `s`: everything before and after it
      is whitespace, and it neither starts nor ends with whitespace. */
  lemma StripTrims(s: string) returns (k: nat)
    ensures k + |Strip(s)| <= |s| && Strip(s) == s[k..k + |Strip(s)|]
    ensures forall i :: 0 <= i < k ==> IsSpace(s[i])
    ensures forall i :: k + |Strip(s)| <= i < |s| ==> IsSpace(s[i])
    ensures Strip(s) == [] || (!IsSpace(Strip(s)[0]) && !IsSpace(Strip(s)[|Strip(s)| - 1]))
  {
    var t := RStrip(s);
    var r := LStrip(t);
    assert Strip(s) == r;
    k := |t| - |r|;
    StripSlice(s, t, r, k);
    PrefixSlice(s, t, k);
  }

  lemma StripSlice(s: string, t: string, r: string, k: nat)
    requires t <= s && k + |r| == |t| && r == t[k..]
    ensures r == s[k..k + |r|]
  {
    PrefixSlice(s, t, k);
  }

  /** A prefix agrees with the whole string position by position. */
  lemma PrefixSlice(s: string, t: string, k: nat)
    requires t <= s && k <= |t|
    ensures t[k..] == s[k..|t|]
    ensures forall i :: 0 <= i < |t| ==> t[i] == s[i]
  {
  }

  /** `s.rstrip(chars)`: `s` without the trailing run of characters drawn from
      `chars`. It removes characters, not a suffix string. */
  function RStripChars(s: string, chars: set<char>): string {
    if s != [] && s[|s| - 1] in chars then RStripChars(s[..|s| - 1], chars) else s
  }

  /** `rstrip(chars)` keeps a prefix whose last character is not in `chars`
      and removes only characters from `chars`. */
  lemma {:induction false} RStripCharsSpec(s: string, chars: set<char>)
    ensures var r := RStripChars(s, chars);
            && r <= s
            && (r == [] || r[|r| - 1] !in chars)
            && (forall i :: |r| <= i < |s| ==> s[i] in chars)
  {
    if s != [] && s[|s| - 1] in chars {
      RStripCharsSpec(s[..|s| - 1], chars);
    }
  }

  /** A word of `split()`: non-empty, no whitespace. */
  predicate IsWord(w: string) {
    w != [] && forall i :: 0 <= i < |w| ==> !IsSpace(w[i])
  }

  /** The longest prefix of `t` that holds no whitespace. */
  function Token(t: string): (w: string)
    ensures w <= t
    ensures forall i :: 0 <= i < |w| ==> !IsSpace(w[i])
    ensures |w| < |t| ==> IsSpace(t[|w|])
  {
    if t == [] || IsSpace(t[0]) then [] else [t[0]] + Token(t[1..])
  }

  /** `s.split()`: the maximal runs of non-whitespace characters, in order. */
  function Split(s: string): (ws: seq<string>)
    ensures forall k :: 0 <= k < |ws| ==> IsWord(ws[k])
    decreases |s|
  {
    var t := LStrip(s);
    if t == [] then []
    else
      var w := Token(t);
      [w] + Split(t[|w|..])
  }

  /** The maximal runs of non-whitespace characters of `s`, in order, read one
      character at a time: a non-whitespace character joins the run of the
      character after it when that one is not whitespace either, and starts a
      run of its own otherwise. */
  function Runs(s: string): (ws: seq<string>)
    ensures s != [] && !IsSpace(s[0]) ==> ws != [] && ws[0] != [] && ws[0][0] == s[0]
    decreases |s|
  {
    if s == [] then []
    else
      var rest := Runs(s[1..]);
      if IsSpace(s[0]) then rest
      else if |s| > 1 && !IsSpace(s[1]) then [[s[0]] + rest[0]] + rest[1..]
      else [[s[0]]] + rest
  }

  /** Leading whitespace starts no run. */
  lemma {:induction false} RunsSkipSpace(s: string)
    ensures Runs(LStrip(s)) == Runs(s)
  {
    if s != [] && IsSpace(s[0]) {
      RunsSkipSpace(s[1..]);
    }
  }

  /** A whitespace-free word followed by whitespace, or by nothing, is one run. */
  lemma {:induction false} RunsOfWord(w: string, r: string)
    requires w != [] && forall i :: 0 <= i < |w| ==> !IsSpace(w[i])
    requires r == [] || IsSpace(r[0])
    ensures Runs(w + r) == [w] + Runs(r)
  {
    var s := w + r;
    assert s[1..] == w[1..] + r;
    if |w| > 1 {
      RunsOfWord(w[1..], r);
      assert [w[0]] + w[1..] == w;
    } else {
      assert s[1..] == r;
      assert w == [w[0]];
    }
  }

  /** `split()` returns exactly the maximal runs of non-whitespace characters. */
  lemma {:induction false} SplitIsRuns(s: string)
    ensures Split(s) == Runs(s)
    decreases |s|
  {
    RunsSkipSpace(s);
    var t := LStrip(s);
    if t != [] {
      var w := Token(t);
      var r := t[|w|..];
      assert t == w + r;
      RunsOfWord(w, r);
      SplitIsRuns(r);
    }
  }

  /** `' '.join(ws)`. */
  function JoinSpaces(ws: seq<string>): string {
    if |ws| == 0 then ""
    else if |ws| == 1 then ws[0]
    else ws[0] + " " + JoinSpaces(ws[1..])
  }

  /** `' '.join(s.split())`: whitespace runs collapsed to one space, leading and
      trailing whitespace removed. */
  function Normalize(s: string): string {
    JoinSpaces(Split(s))
  }

  /** The shape of a normalised string: the only whitespace in it is a single
      space, and every space stands between two non-whitespace characters (so no
      leading or trailing whitespace and no two consecutive spaces). */
  predicate IsNormalized(t: string) {
    forall i :: 0 <= i < |t| && IsSpace(t[i]) ==>
      t[i] == ' ' && 0 < i < |t| - 1 && !IsSpace(t[i - 1]) && !IsSpace(t[i + 1])
  }

  /** The non-whitespace characters of `s`, in order. */
  function NonSpace(s: string): string {
    if s == [] then [] else (if IsSpace(s[0]) then [] else [s[0]]) + NonSpace(s[1..])
  }

  /** The words of `ws` glued together. */
  function Concat(ws: seq<string>): string {
    if ws == [] then [] else ws[0] + Concat(ws[1..])
  }

  lemma {:induction false} NonSpaceAppend(a: string, b: string)
    ensures NonSpace(a + b) == NonSpace(a) + NonSpace(b)
  {
    if a != [] {
      assert (a + b)[1..] == a[1..] + b;
      NonSpaceAppend(a[1..], b);
    } else {
      assert a + b == b;
    }
  }

  lemma {:induction false} NonSpaceOfAllSpace(s: string)
    requires forall i :: 0 <= i < |s| ==> IsSpace(s[i])
    ensures NonSpace(s) == []
  {
    if s != [] {
      NonSpaceOfAllSpace(s[1..]);
    }
  }

  lemma {:induction false} NonSpaceOfWordChars(w: string)
    requires forall i :: 0 <= i < |w| ==> !IsSpace(w[i])
    ensures NonSpace(w) == w
  {
    if w != [] {
      NonSpaceOfWordChars(w[1..]);
    }
  }

  /** `lstrip()` loses only whitespace. */
  lemma LStripKeepsContent(s: string)
    ensures NonSpace(LStrip(s)) == NonSpace(s)
  {
    var t := LStrip(s);
    var pre := s[..|s| - |t|];
    assert s == pre + t;
    NonSpaceAppend(pre, t);
    NonSpaceOfAllSpace(pre);
  }

  /** Cutting the first token off a string moves it, unchanged, to the front of
      the non-whitespace content. */
  lemma TokenKeepsContent(t: string)
    ensures NonSpace(t) == Token(t) + NonSpace(t[|Token(t)|..])
  {
    var w := Token(t);
    assert t == w + t[|w|..];
    NonSpaceAppend(w, t[|w|..]);
    NonSpaceOfWordChars(w);
  }

  /** `split()` loses only whitespace: its words hold every non-whitespace
      character of the input, in order. */
  lemma {:induction false} SplitKeepsContent(s: string)
    ensures Concat(Split(s)) == NonSpace(s)
    decreases |s|
  {
    LStripKeepsContent(s);
    var t := LStrip(s);
    if t != [] {
      var w := Token(t);
      TokenKeepsContent(t);
      SplitKeepsContent(t[|w|..]);
      assert Split(s) == [w] + Split(t[|w|..]);
    }
  }

  /** Joining words with single spaces loses only the spaces. */
  lemma {:induction false} JoinKeepsContent(ws: seq<string>)
    requires forall k :: 0 <= k < |ws| ==> IsWord(ws[k])
    ensures NonSpace(JoinSpaces(ws)) == Concat(ws)
  {
    if |ws| == 1 {
      NonSpaceOfWordChars(ws[0]);
      assert Concat(ws) == ws[0] + Concat([]);
    } else if |ws| > 1 {
      NonSpaceOfWordChars(ws[0]);
      assert JoinSpaces(ws) == ws[0] + (" " + JoinSpaces(ws[1..]));
      NonSpaceAppend(ws[0], " " + JoinSpaces(ws[1..]));
      NonSpaceAppend(" ", JoinSpaces(ws[1..]));
      JoinKeepsContent(ws[1..]);
    }
  }

  /** Joining words with single spaces gives a normalised string that begins
      with the first word's first character and ends with the last word's last
      character. */
  lemma {:induction false} JoinIsNormalized(ws: seq<string>)
    requires forall k :: 0 <= k < |ws| ==> IsWord(ws[k])
    ensures IsNormalized(JoinSpaces(ws))
    ensures (JoinSpaces(ws) == []) == (ws == [])
    ensures ws != [] ==> IsWord(ws[0]) && JoinSpaces(ws)[0] == ws[0][0]
    ensures ws != [] ==>
              IsWord(ws[|ws| - 1]) &&
              JoinSpaces(ws)[|JoinSpaces(ws)| - 1] == ws[|ws| - 1][|ws[|ws| - 1]| - 1]
  {
    if |ws| > 1 {
      JoinIsNormalized(ws[1..]);
      var w, rest := ws[0], JoinSpaces(ws[1..]);
      var t := w + " " + rest;
      assert forall i :: 0 <= i < |w| ==> t[i] == w[i];
      assert forall i :: |w| < i < |t| ==> t[i] == rest[i - |w| - 1];
    }
  }

  /** What `' '.join(s.split())` promises: a normalised string holding exactly
      the non-whitespace characters of `s`, empty exactly when `s` is all
      whitespace. */
  lemma NormalizeSpec(s: string)
    ensures IsNormalized(Normalize(s))
    ensures NonSpace(Normalize(s)) == NonSpace(s)
    ensures (Normalize(s) == []) == (forall i :: 0 <= i < |s| ==> IsSpace(s[i]))
  {
    JoinIsNormalized(Split(s));
    JoinKeepsContent(Split(s));
    SplitKeepsContent(s);
    if Normalize(s) != [] {
      var i := AllSpaceOrWitness(s);
    } else {
      NonSpaceEmpty(s);
    }
  }

  /** `' '.join(s.split())` collapses every run of whitespace, leading and
      trailing ones included, so that the maximal runs of non-whitespace
      characters are joined by single spaces. */
  lemma NormalizeIsJoinedRuns(s: string)
    ensures Normalize(s) == JoinSpaces(Runs(s))
  {
    SplitIsRuns(s);
  }

  /** Either `s` is all whitespace (and then it has no non-whitespace content),
      or some position holds a non-whitespace character. */
  lemma {:induction false} AllSpaceOrWitness(s: string) returns (i: int)
    requires NonSpace(s) != []
    ensures 0 <= i < |s| && !IsSpace(s[i])
  {
    if IsSpace(s[0]) {
      var j := AllSpaceOrWitness(s[1..]);
      i := j + 1;
    } else {
      i := 0;
    }
  }

  lemma {:induction false} NonSpaceEmpty(s: string)
    requires NonSpace(s) == []
    ensures forall i :: 0 <= i < |s| ==> IsSpace(s[i])
  {
    if s != [] {
      NonSpaceEmpty(s[1..]);
      assert forall i :: 1 <= i < |s| ==> s[i] == s[1..][i - 1];
    }
  }

  /** A normalised string is left alone by `strip()`. */
  lemma StripNormalized(t: string)
    requires IsNormalized(t)
    ensures Strip(t) == t
  {
    if t != [] {
      assert !IsSpace(t[|t| - 1]);
      assert !IsSpace(t[0]);
    }
  }

  /** `str(n)` for a non-negative integer. */
  function NatToString(n: nat): string {
    if n < 10 then [DigitChar(n)] else NatToString(n / 10) + [DigitChar(n % 10)]
  }

  /** `str(n)` is a string of decimal digits, without a leading zero unless it
      is `"0"`, that reads back as `n`. */
  lemma {:induction false} NatToStringSpec(n: nat)
    ensures NatToString(n) != []
    ensures forall i :: 0 <= i < |NatToString(n)| ==> '0' <= NatToString(n)[i] <= '9'
    ensures n > 0 ==> NatToString(n)[0] != '0'
    ensures DecimalValue(NatToString(n)) == n
  {
    if n >= 10 {
      NatToStringSpec(n / 10);
      var s := NatToString(n / 10);
      assert NatToString(n)[..|s|] == s;
    }
  }

  function DigitChar(d: nat): (c: char)
    requires d < 10
    ensures '0' <= c <= '9'
  {
    ('0' as int + d) as char
  }

  /** The value of a decimal digit, 0 for any other character. */
  function DigitValue(c: char): nat {
    if '0' <= c <= '9' then c as int - '0' as int else 0
  }

  /** The number a string of decimal digits denotes, read from the left. */
  function DecimalValue(s: string): nat {
    if s == [] then 0 else DecimalValue(s[..|s| - 1]) * 10 + DigitValue(s[|s| - 1])
  }

  /** POSIX `os.path.join(dir, name)`: an absolute `name` wins, otherwise
      exactly one `/` separates the parts unless `dir` is empty or already ends
      with one. */
  function PathJoin(dir: string, name: string): string {
    if name != [] && name[0] == '/' then name
    else if dir == [] || dir[|dir| - 1] == '/' then dir + name
    else dir + "/" + name
  }

  predicate IsAbsolute(name: string) {
    name != [] && name[0] == '/'
  }

  /** An absolute name is the result; a relative one is appended to a prefix
      that does not depend on the name, `PathJoin(dir, "")`: the directory
      itself when it is empty or already ends in `/`, and the directory plus
      one `/` otherwise. */
  lemma PathJoinSpec(dir: string, name: string)
    ensures IsAbsolute(name) ==> PathJoin(dir, name) == name
    ensures !IsAbsolute(name) ==> PathJoin(dir, name) == PathJoin(dir, "") + name
    ensures dir <= PathJoin(dir, "")
    ensures |PathJoin(dir, "")| <= |dir| + 1
    ensures dir != [] ==> PathJoin(dir, "")[|PathJoin(dir, "")| - 1] == '/'
    ensures dir == [] || dir[|dir| - 1] == '/' ==> PathJoin(dir, "") == dir
    ensures dir != [] && dir[|dir| - 1] != '/' ==> PathJoin(dir, "") == dir + "/"
  {
    assert dir + "" == dir;
    assert dir + "/" + "" == dir + "/";
  }

  /** Within one directory, distinct relative names give distinct paths, so a
      path names the file of exactly one relative name. */
  lemma PathJoinInjective(dir: string, a: string, b: string)
    requires !IsAbsolute(a) && !IsAbsolute(b)
    requires PathJoin(dir, a) == PathJoin(dir, b)
    ensures a == b
  {
    PathJoinSpec(dir, a);
    PathJoinSpec(dir, b);
    var pre := PathJoin(dir, "");
    assert a == (pre + a)[|pre|..];
    assert b == (pre + b)[|pre|..];
  }
}
