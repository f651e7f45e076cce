/**
 * The parts of `java.lang.String` and `java.lang.Character` that the analysis
 * extractor relies on: `indexOf`, `contains`, `trim`, `split("\n")`,
 * `split("\\s+")`, `toLowerCase` and `equalsIgnoreCase`.
 *
 * A Dafny `char` stands for one Unicode code point; surrogate pairs of
 * UTF-16 are not modelled.
 */
module JavaText {
  import opened Wrappers

  // ---------------------------------------------------------------------------
  // indexOf / contains
  // ---------------------------------------------------------------------------

  /** `k` occurs in `s` starting at offset `i`. */
  predicate MatchesAt(s: string, k: string, i: nat) {
    i + |k| <= |s| && s[i..i + |k|] == k
  }

  /** `s.indexOf(k, from)`: the first offset at or after `from` where `k` occurs. */
  function IndexOfFrom(s: string, k: string, from: nat): (r: Option<nat>)
    ensures r.Some? ==> from <= r.value && MatchesAt(s, k, r.value)
    ensures r.Some? ==> forall j :: from <= j < r.value ==> !MatchesAt(s, k, j)
    ensures r.None? ==> forall j :: from <= j ==> !MatchesAt(s, k, j)
    decreases |s| - from
  {
    if from + |k| > |s| then None
    else if s[from..from + |k|] == k then Some(from)
    else IndexOfFrom(s, k, from + 1)
  }

  /** Searching from an earlier offset finds the same match when nothing matches in between. */
  lemma {:induction false} IndexOfFromEarlier(s: string, k: string, from: nat, mid: nat)
    requires from <= mid && forall j :: from <= j < mid ==> !MatchesAt(s, k, j)
    ensures IndexOfFrom(s, k, from) == IndexOfFrom(s, k, mid)
    decreases mid - from
  {
    if from < mid {
      IndexOfFromEarlier(s, k, from + 1, mid);
    }
  }

  /** `s.contains(k)`. */
  predicate Contains(s: string, k: string) {
    IndexOfFrom(s, k, 0).Some?
  }

  /** A needle placed between two strings is contained in the result. */
  lemma {:induction false} ContainsMiddle(a: string, k: string, c: string)
    ensures Contains(a + k + c, k)
  {
    var s := a + k + c;
    assert s[|a|..|a| + |k|] == k;
    assert MatchesAt(s, k, |a|);
  }

  /** String concatenation is associative. */
  lemma AppendAssociates(x: string, y: string, z: string)
    ensures x + (y + z) == (x + y) + z
  {
  }

  /** A one-character needle is contained exactly when that character is. */
  lemma {:induction false} ContainsChar(s: string, c: char)
    ensures Contains(s, [c]) <==> c in s
  {
    if c in s {
      var i :| 0 <= i < |s| && s[i] == c;
      assert MatchesAt(s, [c], i);
    }
    if Contains(s, [c]) {
      var i := IndexOfFrom(s, [c], 0).value;
      assert s[i..i + 1] == [c];
      assert s[i] == c;
    }
  }

  /** A one-character match is that character at that offset. */
  lemma {:induction false} MatchesChar(s: string, c: char, i: nat)
    ensures MatchesAt(s, [c], i) <==> i < |s| && s[i] == c
  {
    if i < |s| {
      assert s[i..i + 1][0] == s[i];
      if s[i] == c { assert s[i..i + 1] == [c]; }
    }
  }

  /**
   * `indexOf` of a single character: the first offset holding it, i.e. the
   * end of the longest prefix free of it.
   */
  lemma {:induction false} IndexOfChar(s: string, c: char, n: nat)
    requires n <= |s| && (forall j :: 0 <= j < n ==> s[j] != c) && (n < |s| ==> s[n] == c)
    ensures IndexOfFrom(s, [c], 0) == if n < |s| then Some(n) else None
  {
    MatchesChar(s, c, n);
    var found := IndexOfFrom(s, [c], 0);
    if found.Some? {
      MatchesChar(s, c, found.value);
    }
  }

  /** `t` is a contiguous part of `s`. */
  ghost predicate IsInfix(t: string, s: string) {
    exists a: nat :: MatchesAt(s, t, a)
  }

  /** A needle found in a part of a text is found in the text. */
  lemma {:induction false} ContainedInInfix(t: string, s: string, k: string)
    requires IsInfix(t, s)
    ensures Contains(t, k) ==> Contains(s, k)
  {
    if Contains(t, k) {
      var a: nat :| MatchesAt(s, t, a);
      var j := IndexOfFrom(t, k, 0).value;
      forall i | 0 <= i < |k| ensures s[a + j + i] == k[i] {
        assert t[j..j + |k|][i] == k[i];
        assert s[a..a + |t|][j + i] == t[j + i];
      }
      assert s[a + j..a + j + |k|] == k;
      assert MatchesAt(s, k, a + j);
    }
  }

  /** A character of a part of a text is a character of the text. */
  lemma {:induction false} CharInInfix(t: string, s: string, c: char)
    requires IsInfix(t, s)
    ensures c in t ==> c in s
  {
    if c in t {
      var a: nat :| MatchesAt(s, t, a);
      var j :| 0 <= j < |t| && t[j] == c;
      assert s[a..a + |t|][j] == s[a + j];
    }
  }

  // ---------------------------------------------------------------------------
  // trim
  // ---------------------------------------------------------------------------

  /** A character that `String.trim` removes from either end: any character up to U+0020. */
  predicate IsTrimmable(c: char) {
    c <= ' '
  }

  /** `s` with its leading trimmable characters removed. */
  function TrimLeft(s: string): (r: string)
    ensures |r| <= |s|
    ensures |r| > 0 ==> !IsTrimmable(r[0])
  {
    if |s| > 0 && IsTrimmable(s[0]) then TrimLeft(s[1..]) else s
  }

  /** What `TrimLeft` keeps is the end of its argument. */
  lemma {:induction false} TrimLeftIsSuffix(s: string)
    ensures TrimLeft(s) == s[|s| - |TrimLeft(s)|..]
  {
    if |s| > 0 && IsTrimmable(s[0]) {
      TrimLeftIsSuffix(s[1..]);
      assert s[1..][|s| - 1 - |TrimLeft(s)|..] == s[|s| - |TrimLeft(s)|..];
    }
  }

  /** `s` with its trailing trimmable characters removed. */
  function TrimRight(s: string): (r: string)
    ensures |r| <= |s|
    ensures |r| > 0 ==> !IsTrimmable(r[|r| - 1])
  {
    if |s| > 0 && IsTrimmable(s[|s| - 1]) then TrimRight(s[..|s| - 1]) else s
  }

  /** What `TrimRight` keeps is the start of its argument. */
  lemma {:induction false} TrimRightIsPrefix(s: string)
    ensures TrimRight(s) == s[..|TrimRight(s)|]
  {
    if |s| > 0 && IsTrimmable(s[|s| - 1]) {
      TrimRightIsPrefix(s[..|s| - 1]);
      assert s[..|s| - 1][..|TrimRight(s)|] == s[..|TrimRight(s)|];
    }
  }

  /** `s.trim()`. */
  function Trim(s: string): (r: string)
    ensures |r| <= |s|
    ensures |r| > 0 ==> !IsTrimmable(r[0]) && !IsTrimmable(r[|r| - 1])
  {
    var l := TrimLeft(s);
    TrimRightIsPrefix(l);
    TrimRight(l)
  }

  /** What `trim` keeps is a contiguous part of its argument. */
  lemma {:induction false} TrimIsInfix(s: string)
    ensures IsInfix(Trim(s), s)
  {
    var l := TrimLeft(s);
    var a := |s| - |l|;
    TrimLeftIsSuffix(s);
    TrimRightIsPrefix(l);
    assert s[a..a + |Trim(s)|] == l[..|Trim(s)|];
    assert MatchesAt(s, Trim(s), a);
  }

  /** Everything `TrimLeft` removes is trimmable. */
  lemma {:induction false} TrimLeftDropsTrimmable(s: string)
    ensures forall i :: 0 <= i < |s| - |TrimLeft(s)| ==> IsTrimmable(s[i])
  {
    if |s| > 0 && IsTrimmable(s[0]) {
      TrimLeftDropsTrimmable(s[1..]);
      forall i | 1 <= i < |s| - |TrimLeft(s)|
        ensures IsTrimmable(s[i])
      {
        assert s[i] == s[1..][i - 1];
      }
    }
  }

  /** Everything `TrimRight` removes is trimmable. */
  lemma {:induction false} TrimRightDropsTrimmable(s: string)
    ensures forall i :: |TrimRight(s)| <= i < |s| ==> IsTrimmable(s[i])
  {
    if |s| > 0 && IsTrimmable(s[|s| - 1]) {
      TrimRightDropsTrimmable(s[..|s| - 1]);
      forall i | |TrimRight(s)| <= i < |s| - 1
        ensures IsTrimmable(s[i])
      {
        assert s[i] == s[..|s| - 1][i];
      }
    }
  }

  /** A prefix `r` of a suffix `l` of `s` sits in `s` where `l` begins. */
  lemma {:induction false} PrefixOfSuffix(s: string, l: string, r: string)
    requires |l| <= |s| && l == s[|s| - |l|..] && |r| <= |l| && r == l[..|r|]
    ensures var a := |s| - |l|;
      && s[a..a + |r|] == r
      && forall i :: a <= i < |s| ==> s[i] == l[i - a]
  {
    var a := |s| - |l|;
    forall i | a <= i < |s|
      ensures s[i] == l[i - a]
    {
      assert s[a..][i - a] == s[i];
    }
  }

  /**
   * `trim` keeps the part of `s` that starts at offset `a`, and everything it
   * drops on either side is trimmable; with the ends of `Trim` never
   * trimmable, this pins the result down.
   */
  lemma {:induction false} TrimWindow(s: string)
    ensures var a := |s| - |TrimLeft(s)|; var r := Trim(s);
      && a + |r| <= |s| && s[a..a + |r|] == r
      && (forall i :: 0 <= i < a ==> IsTrimmable(s[i]))
      && (forall i :: a + |r| <= i < |s| ==> IsTrimmable(s[i]))
  {
    var l := TrimLeft(s);
    var a := |s| - |l|;
    var r := Trim(s);
    TrimLeftIsSuffix(s);
    TrimRightIsPrefix(l);
    PrefixOfSuffix(s, l, r);
    TrimLeftDropsTrimmable(s);
    TrimRightDropsTrimmable(l);
  }

  /** Removing leading trimmable characters is unaffected by more of them in front. */
  lemma {:induction false} TrimLeftPadded(pad: string, s: string)
    requires forall i :: 0 <= i < |pad| ==> IsTrimmable(pad[i])
    ensures TrimLeft(pad + s) == TrimLeft(s)
    decreases |pad|
  {
    if |pad| > 0 {
      assert (pad + s)[1..] == pad[1..] + s;
      TrimLeftPadded(pad[1..], s);
    } else {
      assert pad + s == s;
    }
  }

  /** Left-trimming a concatenation keeps at least what trimming each part keeps. */
  lemma {:induction false} TrimLeftAppend(a: string, b: string)
    ensures |TrimLeft(a + b)| >= |TrimLeft(a)| + |TrimLeft(b)|
  {
    if |a| == 0 {
      assert a + b == b;
    } else if IsTrimmable(a[0]) {
      assert (a + b)[1..] == a[1..] + b;
      TrimLeftAppend(a[1..], b);
    }
  }

  /** Removing trailing trimmable characters is unaffected by more of them behind. */
  lemma {:induction false} TrimRightPadded(s: string, pad: string)
    requires forall i :: 0 <= i < |pad| ==> IsTrimmable(pad[i])
    ensures TrimRight(s + pad) == TrimRight(s)
    decreases |pad|
  {
    if |pad| > 0 {
      assert (s + pad)[..|s + pad| - 1] == s + pad[..|pad| - 1];
      TrimRightPadded(s, pad[..|pad| - 1]);
    } else {
      assert s + pad == s;
    }
  }

  /** Trailing trimmable characters pass through the left trim untouched unless nothing else is left. */
  lemma {:induction false} TrimLeftThenPad(s: string, pad: string)
    requires forall i :: 0 <= i < |pad| ==> IsTrimmable(pad[i])
    ensures TrimRight(TrimLeft(s + pad)) == TrimRight(TrimLeft(s) + pad)
    decreases |s|
  {
    if |s| == 0 {
      assert s + pad == pad;
      TrimLeftPadded(pad, "");
      assert pad + "" == pad;
      TrimRightPadded("", pad);
      assert "" + pad == pad;
    } else if IsTrimmable(s[0]) {
      assert (s + pad)[1..] == s[1..] + pad;
      TrimLeftThenPad(s[1..], pad);
    } else {
      TrimRightPadded(s, pad);
    }
  }

  /** Trimming ignores padding of trimmable characters on both sides. */
  lemma {:induction false} TrimPadded(front: string, s: string, back: string)
    requires forall i :: 0 <= i < |front| ==> IsTrimmable(front[i])
    requires forall i :: 0 <= i < |back| ==> IsTrimmable(back[i])
    ensures Trim(front + s + back) == Trim(s)
  {
    assert front + s + back == front + (s + back);
    TrimLeftPadded(front, s + back);
    TrimLeftThenPad(s, back);
    TrimRightPadded(TrimLeft(s), back);
  }

  /** A string that starts and ends with non-trimmable characters is its own trim. */
  lemma {:induction false} TrimOfTrimmed(s: string)
    requires |s| > 0 && !IsTrimmable(s[0]) && !IsTrimmable(s[|s| - 1])
    ensures Trim(s) == s
  {
  }

  // ---------------------------------------------------------------------------
  // split
  // ---------------------------------------------------------------------------

  /**
   * The pieces of `s` between single separator characters, empty pieces kept:
   * there is one more piece than there are separators in `s`.
   */
  function SplitOn(s: string, seps: set<char>): (r: seq<string>)
    ensures |r| >= 1
    ensures forall i, j :: 0 <= i < |r| && 0 <= j < |r[i]| ==> r[i][j] !in seps
    ensures |r[0]| <= |s| && r[0] == s[..|r[0]|] && (|r[0]| < |s| ==> s[|r[0]|] in seps)
  {
    if |s| == 0 then [""]
    else
      var rest := SplitOn(s[1..], seps);
      if s[0] in seps then [""] + rest
      else
        assert [s[0]] + rest[0] == s[..|rest[0]| + 1];
        [[s[0]] + rest[0]] + rest[1..]
  }

  /** Every piece is empty exactly when the string is made of separators only. */
  lemma {:induction false} SplitOnAllEmpty(s: string, seps: set<char>)
    ensures (forall i :: 0 <= i < |SplitOn(s, seps)| ==> SplitOn(s, seps)[i] == "")
        <==> (forall j :: 0 <= j < |s| ==> s[j] in seps)
  {
    if |s| > 0 {
      SplitOnAllEmpty(s[1..], seps);
      var rest := SplitOn(s[1..], seps);
      var r := SplitOn(s, seps);
      if s[0] in seps {
        assert r == [""] + rest;
        if forall i :: 0 <= i < |rest| ==> rest[i] == "" {
          forall i | 0 <= i < |r| ensures r[i] == "" {
            if i > 0 { assert r[i] == rest[i - 1]; }
          }
        }
        if forall i :: 0 <= i < |r| ==> r[i] == "" {
          forall i | 0 <= i < |rest| ensures rest[i] == "" {
            assert rest[i] == r[i + 1];
          }
        }
        if forall j :: 0 <= j < |s[1..]| ==> s[1..][j] in seps {
          forall j | 0 <= j < |s| ensures s[j] in seps {
            if j > 0 { assert s[j] == s[1..][j - 1]; }
          }
        }
      } else {
        assert r[0] == [s[0]] + rest[0];
      }
    }
  }

  /** Joining the pieces of a split on one character with that character gives back the string. */
  function JoinOn(pieces: seq<string>, sep: char): string {
    if |pieces| == 0 then ""
    else if |pieces| == 1 then pieces[0]
    else pieces[0] + [sep] + JoinOn(pieces[1..], sep)
  }

  lemma {:induction false} SplitOnRoundTrip(s: string, sep: char)
    ensures JoinOn(SplitOn(s, {sep}), sep) == s
  {
    if |s| > 0 {
      SplitOnRoundTrip(s[1..], sep);
      var rest := SplitOn(s[1..], {sep});
      if s[0] == sep {
        assert SplitOn(s, {sep}) == [""] + rest;
        assert ([""] + rest)[1..] == rest;
        assert s == [sep] + s[1..];
      } else {
        var first := [s[0]] + rest[0];
        assert SplitOn(s, {sep}) == [first] + rest[1..];
        if |rest| == 1 {
          assert s == [s[0]] + s[1..];
        } else {
          assert ([first] + rest[1..])[1..] == rest[1..];
          assert JoinOn(rest, sep) == rest[0] + [sep] + JoinOn(rest[1..], sep);
          assert s == [s[0]] + s[1..];
        }
      }
    }
  }

  /** What `String.split` does to its result when the limit is 0: trailing empty strings go. */
  function DropTrailingEmpty(pieces: seq<string>): (r: seq<string>)
    ensures |r| <= |pieces| && r == pieces[..|r|]
    ensures |r| > 0 ==> r[|r| - 1] != ""
    ensures forall i :: |r| <= i < |pieces| ==> pieces[i] == ""
  {
    if |pieces| > 0 && pieces[|pieces| - 1] == "" then DropTrailingEmpty(pieces[..|pieces| - 1])
    else pieces
  }

  /**
   * `s.split("\n")`: with no line feed at all the whole string is the only
   * element (even when it is empty); otherwise the pieces between line feeds,
   * with the trailing empty ones dropped.
   */
  function SplitLines(s: string): (r: seq<string>)
    ensures |r| == 0 <==> |s| > 0 && forall i :: 0 <= i < |s| ==> s[i] == '\n'
    ensures |r| > 0 ==> |r[0]| <= |s| && r[0] == s[..|r[0]|] && (|r[0]| < |s| ==> s[|r[0]|] == '\n')
    ensures |r| > 0 ==> forall j :: 0 <= j < |r[0]| ==> s[j] != '\n'
  {
    if '\n' !in s then
      assert |s| > 0 ==> s[0] != '\n';
      [s]
    else
      var pieces := SplitOn(s, {'\n'});
      SplitOnAllEmpty(s, {'\n'});
      assert forall i :: 0 <= i < |s| ==> (s[i] in {'\n'} <==> s[i] == '\n');
      var r := DropTrailingEmpty(pieces);
      assert |r| == 0 ==> forall i :: 0 <= i < |pieces| ==> pieces[i] == "";
      assert |r| > 0 ==> r[0] == pieces[0];
      assert forall j :: 0 <= j < |pieces[0]| ==> pieces[0][j] !in {'\n'};
      r
  }

  /** The characters the regular expression `\s` matches: space, tab, line feed, vertical tab, form feed, carriage return. */
  const RegexSpaces: set<char> := {' ', '\t', '\n', '\U{000B}', '\U{000C}', '\r'}

  /** The non-empty strings of `pieces`, in order. */
  function NonEmpty(pieces: seq<string>): (r: seq<string>)
    ensures forall i :: 0 <= i < |r| ==> r[i] != "" && r[i] in pieces
  {
    if |pieces| == 0 then []
    else if pieces[0] == "" then NonEmpty(pieces[1..])
    else [pieces[0]] + NonEmpty(pieces[1..])
  }

  /**
   * `s.split("\\s+")`: the maximal runs of non-white-space characters, with an
   * empty first element when `s` starts with white space, trailing empty
   * strings dropped, and `[s]` itself when `s` holds no white space.
   */
  function SplitWhitespace(s: string): (r: seq<string>)
    ensures forall i, j :: 0 <= i < |r| && 0 <= j < |r[i]| ==> r[i][j] !in RegexSpaces
  {
    if forall i :: 0 <= i < |s| ==> s[i] !in RegexSpaces then [s]
    else
      var raw := SplitOn(s, RegexSpaces);
      DropTrailingEmpty([raw[0]] + NonEmpty(raw[1..]))
  }

  // ---------------------------------------------------------------------------
  // case mapping
  // ---------------------------------------------------------------------------

  /**
   * `Character.toLowerCase`, for the characters whose lower case is an ASCII
   * letter: 'A'..'Z', U+0130 (capital I with dot) and U+212A (Kelvin sign).
   */
  function CharToLowerCase(c: char): char {
    if 'A' <= c <= 'Z' then (c as int + 32) as char
    else if c == '\U{0130}' then 'i'
    else if c == '\U{212A}' then 'k'
    else c
  }

  /**
   * `Character.toUpperCase`, for the characters whose upper case is an ASCII
   * letter: 'a'..'z', U+0131 (dotless i) and U+017F (long s).
   */
  function CharToUpperCase(c: char): char {
    if 'a' <= c <= 'z' then (c as int - 32) as char
    else if c == '\U{0131}' then 'I'
    else if c == '\U{017F}' then 'S'
    else c
  }

  /**
   * `String.toLowerCase` in a non-Turkish locale: character by character,
   * except that U+0130 becomes "i" followed by U+0307 (combining dot above).
   */
  function ToLowerCase(s: string): (r: string)
    ensures ('%' in r) == ('%' in s)
  {
    if |s| == 0 then ""
    else
      var head := if s[0] == '\U{0130}' then "i\U{0307}" else [CharToLowerCase(s[0])];
      var rest := ToLowerCase(s[1..]);
      assert s == [s[0]] + s[1..];
      assert ('%' in head) == (s[0] == '%');
      head + rest
  }

  /** Lower-casing works character by character, so it distributes over concatenation. */
  lemma {:induction false} ToLowerCaseAppend(a: string, b: string)
    ensures ToLowerCase(a + b) == ToLowerCase(a) + ToLowerCase(b)
  {
    if |a| == 0 {
      assert a + b == b;
    } else {
      var head := if a[0] == '\U{0130}' then "i\U{0307}" else [CharToLowerCase(a[0])];
      assert (a + b)[0] == a[0] && (a + b)[1..] == a[1..] + b;
      assert ToLowerCase(a + b) == head + ToLowerCase(a[1..] + b);
      ToLowerCaseAppend(a[1..], b);
      assert ToLowerCase(a) == head + ToLowerCase(a[1..]);
      AppendAssociates(head, ToLowerCase(a[1..]), ToLowerCase(b));
    }
  }

  /** Two characters are equal ignoring case as `String.equalsIgnoreCase` compares them. */
  predicate CharEqualsIgnoreCase(a: char, b: char) {
    || a == b
    || CharToUpperCase(a) == CharToUpperCase(b)
    || CharToLowerCase(CharToUpperCase(a)) == CharToLowerCase(CharToUpperCase(b))
  }

  /** `a.equalsIgnoreCase(b)` for a non-null `b`. */
  predicate EqualsIgnoreCase(a: string, b: string) {
    |a| == |b| && forall i :: 0 <= i < |a| ==> CharEqualsIgnoreCase(a[i], b[i])
  }
}
