/**
 * The subset of Go's `strings` package the dashboard uses: TrimSpace,
 * HasPrefix, TrimPrefix, ReplaceAll of one character, Split on one
 * character, and Title (upper-casing restricted to ASCII letters).
 */
module Text {

  /** Go's `unicode.IsSpace`: Latin-1 white space plus the Unicode White_Space code points. */
  predicate IsSpace(c: char) {
    || c == '\t' || c == '\n' || c == '\U{B}' || c == '\U{C}' || c == '\r' || c == ' '
    || c == '\U{85}' || c == '\U{A0}' || c == '\U{1680}'
    || ('\U{2000}' <= c <= '\U{200A}')
    || c == '\U{2028}' || c == '\U{2029}' || c == '\U{202F}' || c == '\U{205F}' || c == '\U{3000}'
  }

  predicate AllSpace(s: string) {
    forall i :: 0 <= i < |s| ==> IsSpace(s[i])
  }

  /** `s` neither starts nor ends with white space. */
  predicate Trimmed(s: string) {
    |s| == 0 || (!IsSpace(s[0]) && !IsSpace(s[|s| - 1]))
  }

  /** Drops leading white space. */
  function TrimLeft(s: string): (r: string)
    ensures |r| <= |s|
    ensures |r| > 0 ==> !IsSpace(r[0]) && r[|r| - 1] == s[|s| - 1]
  {
    if |s| > 0 && IsSpace(s[0]) then TrimLeft(s[1..]) else s
  }

  /** Drops trailing white space. */
  function TrimRight(s: string): (r: string)
    ensures |r| <= |s|
    ensures |r| > 0 ==> !IsSpace(r[|r| - 1]) && r[0] == s[0]
  {
    if |s| > 0 && IsSpace(s[|s| - 1]) then TrimRight(s[..|s| - 1]) else s
  }

  /** TrimLeft removes a run of white space from the front and nothing else. */
  lemma {:induction false} TrimLeftIsSuffix(s: string)
    ensures TrimLeft(s) == s[|s| - |TrimLeft(s)|..]
    ensures AllSpace(s[..|s| - |TrimLeft(s)|])
    decreases |s|
  {
    if |s| > 0 && IsSpace(s[0]) {
      TrimLeftIsSuffix(s[1..]);
      var k := |s| - |TrimLeft(s)|;
      assert s[1..][k - 1..] == s[k..];
      assert forall i :: 0 <= i < k ==> s[..k][i] == s[i];
      assert forall i :: 1 <= i < k ==> s[i] == s[1..][..k - 1][i - 1];
    }
  }

  /** TrimRight removes a run of white space from the back and nothing else. */
  lemma {:induction false} TrimRightIsPrefix(s: string)
    ensures TrimRight(s) == s[..|TrimRight(s)|]
    ensures AllSpace(s[|TrimRight(s)|..])
    decreases |s|
  {
    if |s| > 0 && IsSpace(s[|s| - 1]) {
      var t := s[..|s| - 1];
      TrimRightIsPrefix(t);
      var n := |TrimRight(s)|;
      assert t[..n] == s[..n];
      assert forall i :: n <= i < |s| - 1 ==> s[i] == t[n..][i - n];
      assert forall i :: n <= i < |s| ==> s[n..][i - n] == s[i];
    }
  }

  /** Go's `strings.TrimSpace`. */
  function TrimSpace(s: string): (r: string)
    ensures Trimmed(r)
    ensures |r| <= |s|
  {
    TrimRight(TrimLeft(s))
  }

  /** `r` is the slice of `s` starting at `i`, with only white space around it. */
  ghost predicate SpaceAround(s: string, i: int, r: string) {
    0 <= i <= |s| - |r| && r == s[i..i + |r|] && AllSpace(s[..i]) && AllSpace(s[i + |r|..])
  }

  /** TrimSpace removes white space from both ends and nothing else. */
  lemma TrimSpaceIsSlice(s: string)
    ensures exists i :: SpaceAround(s, i, TrimSpace(s))
  {
    var l := TrimLeft(s);
    var r := TrimRight(l);
    TrimLeftIsSuffix(s);
    TrimRightIsPrefix(l);
    var i := |s| - |l|;
    assert r == l[..|r|] == s[i..i + |r|];
    assert s[i + |r|..] == l[|r|..];
    assert AllSpace(s[..i]) && AllSpace(s[i + |r|..]);
    assert r == TrimSpace(s);
    assert SpaceAround(s, i, r);
  }

  /** Trimming text that is already trimmed changes nothing; in particular TrimSpace is idempotent. */
  lemma TrimSpaceOfTrimmed(s: string)
    requires Trimmed(s)
    ensures TrimSpace(s) == s
  {
    assert TrimLeft(s) == s;
    assert TrimRight(s) == s;
  }

  lemma TrimSpaceIdempotent(s: string)
    ensures TrimSpace(TrimSpace(s)) == TrimSpace(s)
  {
    TrimSpaceOfTrimmed(TrimSpace(s));
  }

  /** Trimming only removes characters, so it never introduces one. */
  lemma TrimSpaceKeepsOut(s: string, c: char)
    requires c !in s
    ensures c !in TrimSpace(s)
  {
    TrimSpaceIsSlice(s);
    var i :| SpaceAround(s, i, TrimSpace(s));
  }

  /** Go's `strings.HasPrefix`. */
  predicate HasPrefix(s: string, prefix: string) {
    |prefix| <= |s| && s[..|prefix|] == prefix
  }

  /** Go's `strings.TrimPrefix`: removes `prefix` when present, otherwise returns `s` unchanged. */
  function TrimPrefix(s: string, prefix: string): (r: string)
    ensures HasPrefix(s, prefix) ==> prefix + r == s
    ensures !HasPrefix(s, prefix) ==> r == s
  {
    if HasPrefix(s, prefix) then s[|prefix|..] else s
  }

  /** Go's `strings.ReplaceAll(s, from, to)` for one-character `from` and `to`. */
  function ReplaceChar(s: string, from: char, to: char): (r: string)
    ensures |r| == |s|
    ensures forall i :: 0 <= i < |s| ==> r[i] == if s[i] == from then to else s[i]
  {
    if |s| == 0 then [] else [if s[0] == from then to else s[0]] + ReplaceChar(s[1..], from, to)
  }

  /** Joins `parts` with `sep` between neighbours; the inverse of Split. */
  function Join(parts: seq<string>, sep: char): (r: string)
    requires |parts| >= 1
  {
    if |parts| == 1 then parts[0] else parts[0] + [sep] + Join(parts[1..], sep)
  }

  /**
   * Go's `strings.Split(s, sep)` for a one-character separator: the pieces
   * between every occurrence of `sep`. There is always at least one piece
   * (the empty string splits into one empty piece).
   */
  function Split(s: string, sep: char): (parts: seq<string>)
    ensures |parts| >= 1
    ensures forall i :: 0 <= i < |parts| ==> sep !in parts[i]
  {
    if |s| == 0 then [[]]
    else if s[0] == sep then [[]] + Split(s[1..], sep)
    else
      var rest := Split(s[1..], sep);
      [[s[0]] + rest[0]] + rest[1..]
  }

  /** Round trip: joining the pieces of a split with the separator gives the text back. */
  lemma {:induction false} JoinSplit(s: string, sep: char)
    ensures Join(Split(s, sep), sep) == s
    decreases |s|
  {
    if |s| > 0 {
      JoinSplit(s[1..], sep);
      var rest := Split(s[1..], sep);
      if s[0] != sep {
        var parts := Split(s, sep);
        assert parts[0] == [s[0]] + rest[0];
        if |rest| == 1 {
          assert Join(parts, sep) == [s[0]] + rest[0];
        } else {
          assert parts[1..] == rest[1..];
          assert Join(parts, sep) == [s[0]] + (rest[0] + [sep] + Join(rest[1..], sep));
        }
      }
      assert [s[0]] + s[1..] == s;
    }
  }

  /** A piece free of `sep` followed by `sep` becomes the first piece of the split. */
  lemma {:induction false} SplitAfterField(field: string, sep: char, rest: string)
    requires sep !in field
    ensures Split(field + [sep] + rest, sep) == [field] + Split(rest, sep)
    decreases |field|
  {
    if |field| > 0 {
      SplitAfterField(field[1..], sep, rest);
      var s := field + [sep] + rest;
      assert s[0] == field[0] != sep;
      assert s[1..] == field[1..] + [sep] + rest;
      assert Split(s[1..], sep) == [field[1..]] + Split(rest, sep);
      assert [field[0]] + field[1..] == field;
    } else {
      assert field + [sep] + rest == [sep] + rest;
    }
  }

  /** Text free of `sep` splits into itself alone. */
  lemma {:induction false} SplitWithoutSeparator(s: string, sep: char)
    requires sep !in s
    ensures Split(s, sep) == [s]
    decreases |s|
  {
    if |s| > 0 {
      SplitWithoutSeparator(s[1..], sep);
      assert [s[0]] + s[1..] == s;
    }
  }

  /** Round trip: splitting the join of separator-free pieces gives the pieces back. */
  lemma {:induction false} SplitJoin(parts: seq<string>, sep: char)
    requires |parts| >= 1
    requires forall i :: 0 <= i < |parts| ==> sep !in parts[i]
    ensures Split(Join(parts, sep), sep) == parts
    decreases |parts|
  {
    if |parts| == 1 {
      SplitWithoutSeparator(parts[0], sep);
    } else {
      SplitJoin(parts[1..], sep);
      SplitAfterField(parts[0], sep, Join(parts[1..], sep));
      assert [parts[0]] + parts[1..] == parts;
    }
  }

  predicate IsAsciiLower(c: char) { 'a' <= c <= 'z' }

  predicate IsAsciiUpper(c: char) { 'A' <= c <= 'Z' }

  predicate IsAsciiDigit(c: char) { '0' <= c <= '9' }

  /**
   * Go's word-boundary test inside `strings.Title`: ASCII letters, digits and
   * `_` continue a word and every other ASCII character ends one; beyond
   * ASCII, letters and digits continue a word and only white space ends one.
   */
  predicate IsSeparator(c: char) {
    if c <= '\U{7F}' then !(IsAsciiLower(c) || IsAsciiUpper(c) || IsAsciiDigit(c) || c == '_')
    else IsSpace(c)
  }

  /** Title case of one character, ASCII only: a lower-case letter becomes upper case. */
  function ToTitle(c: char): (u: char)
    ensures IsAsciiLower(c) ==> IsAsciiUpper(u) && u as int + 32 == c as int
    ensures !IsAsciiLower(c) ==> u == c
  {
    if IsAsciiLower(c) then (c as int - 32) as char else c
  }

  /** Title casing of `s` when the character before it was `prev`. */
  function TitleAfter(prev: char, s: string): (r: string)
    decreases |s|
    ensures |r| == |s|
    ensures forall i {:trigger r[i]} :: 0 <= i < |s| ==>
              r[i] == if IsSeparator(if i == 0 then prev else s[i - 1]) then ToTitle(s[i]) else s[i]
  {
    if |s| == 0 then []
    else [if IsSeparator(prev) then ToTitle(s[0]) else s[0]] + TitleAfter(s[0], s[1..])
  }

  /**
   * Go's `strings.Title`: the first letter of every word is upper-cased, where a
   * word starts at the beginning of `s` or after a separator. Nothing is lower-cased.
   */
  function Title(s: string): (r: string)
    ensures |r| == |s|
    ensures |s| > 0 ==> r[0] == ToTitle(s[0])
    ensures forall i {:trigger r[i]} :: 0 < i < |s| ==> r[i] == if IsSeparator(s[i - 1]) then ToTitle(s[i]) else s[i]
  {
    TitleAfter(' ', s)
  }

  predicate AllAsciiLower(s: string) {
    forall i :: 0 <= i < |s| ==> IsAsciiLower(s[i])
  }

  /** Two lower-case words joined by a space: Title upper-cases the first letter of each and nothing else. */
  lemma TitleOfTwoWords(a: string, b: string)
    requires |a| > 0 && |b| > 0 && AllAsciiLower(a) && AllAsciiLower(b)
    ensures Title(a + " " + b) == [ToTitle(a[0])] + a[1..] + " " + [ToTitle(b[0])] + b[1..]
  {
    var s := a + " " + b;
    var r := Title(s);
    var e := [ToTitle(a[0])] + a[1..] + " " + [ToTitle(b[0])] + b[1..];
    assert |e| == |r|;
    forall i | 0 < i < |s|
      ensures r[i] == e[i]
    {
      assert r[i] == if IsSeparator(s[i - 1]) then ToTitle(s[i]) else s[i];
      if i < |a| {
        assert s[i - 1] == a[i - 1] && s[i] == a[i] && e[i] == a[i];
        assert !IsSeparator(a[i - 1]);
      } else if i == |a| {
        assert s[i - 1] == a[i - 1] && s[i] == ' ' && e[i] == ' ';
        assert !IsSeparator(a[i - 1]);
      } else if i == |a| + 1 {
        assert s[i - 1] == ' ' && s[i] == b[0] && e[i] == ToTitle(b[0]);
      } else {
        var j := i - |a| - 1;
        assert s[i - 1] == b[j - 1] && s[i] == b[j] && e[i] == b[j];
        assert !IsSeparator(b[j - 1]);
      }
    }
  }

  /** Replacing `from` by `to` in two `from`-free pieces joined by `from` joins them by `to`. */
  lemma ReplaceJoined(a: string, b: string, from: char, to: char)
    requires from !in a && from !in b
    ensures ReplaceChar(a + [from] + b, from, to) == a + [to] + b
  {
    var s := a + [from] + b;
    var r := ReplaceChar(s, from, to);
    var e := a + [to] + b;
    forall i | 0 <= i < |s|
      ensures r[i] == e[i]
    {
      assert r[i] == if s[i] == from then to else s[i];
      if i < |a| {
        assert s[i] == a[i] == e[i] != from;
      } else if i == |a| {
        assert s[i] == from && e[i] == to;
      } else {
        assert s[i] == b[i - |a| - 1] == e[i] != from;
      }
    }
    assert |r| == |e|;
  }
}
