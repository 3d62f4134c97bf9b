/**
 * The java.lang.String operations the dictionary editor relies on:
 * startsWith/endsWith, trim(), an ASCII toLowerCase(), and split() on a
 * single separator character (which discards trailing empty fields).
 * A Java string is modelled as a sequence of Unicode scalar values.
 */
module Strings {

  /** `s.startsWith(prefix)` */
  predicate StartsWith(s: string, prefix: string) {
    |prefix| <= |s| && s[..|prefix|] == prefix
  }

  /** `s.endsWith(suffix)` */
  predicate EndsWith(s: string, suffix: string) {
    |suffix| <= |s| && s[|s| - |suffix|..] == suffix
  }

  /** `n` copies of the character `c`. */
  function Repeat(c: char, n: nat): (s: string)
    ensures |s| == n && forall i :: 0 <= i < n ==> s[i] == c
  {
    seq(n, _ => c)
  }

  // ---------------------------------------------------------------- trim()

  /** What `String.trim()` strips: every code point at or below U+0020. */
  predicate IsTrimmable(c: char) {
    c <= ' '
  }

  /** The leading part of `trim()`: drops trimmable characters at the front. */
  function TrimStart(s: string): string {
    if s != [] && IsTrimmable(s[0]) then TrimStart(s[1..]) else s
  }

  /** The trailing part of `trim()`: drops trimmable characters at the back. */
  function TrimEnd(s: string): string {
    if s != [] && IsTrimmable(s[|s| - 1]) then TrimEnd(s[..|s| - 1]) else s
  }

  /** `s.trim()` */
  function Trim(s: string): string {
    TrimEnd(TrimStart(s))
  }

  /** TrimStart removes a run of trimmable characters and stops at the first other one. */
  lemma {:induction false} TrimStartSpec(s: string)
    ensures var r := TrimStart(s);
      |r| <= |s| && r == s[|s| - |r|..] &&
      (forall i :: 0 <= i < |s| - |r| ==> IsTrimmable(s[i])) &&
      (r != [] ==> !IsTrimmable(r[0]))
  {
    if s != [] && IsTrimmable(s[0]) {
      var t := s[1..];
      TrimStartSpec(t);
      var r := TrimStart(t);
      assert t[|t| - |r|..] == s[|s| - |r|..];
      forall i | 0 <= i < |s| - |r| ensures IsTrimmable(s[i]) {
        if i > 0 {
          assert s[i] == t[i - 1];
        }
      }
    }
  }

  /** TrimEnd removes a run of trimmable characters at the back and stops at the last other one. */
  lemma {:induction false} TrimEndSpec(s: string)
    ensures var r := TrimEnd(s);
      |r| <= |s| && r == s[..|r|] &&
      (forall i :: |r| <= i < |s| ==> IsTrimmable(s[i])) &&
      (r != [] ==> !IsTrimmable(r[|r| - 1]))
  {
    if s != [] && IsTrimmable(s[|s| - 1]) {
      var t := s[..|s| - 1];
      TrimEndSpec(t);
      var r := TrimEnd(t);
      assert t[..|r|] == s[..|r|];
      forall i | |r| <= i < |s| ensures IsTrimmable(s[i]) {
        if i < |s| - 1 {
          assert s[i] == t[i];
        }
      }
    }
  }

  /**
   * `trim()` keeps the slice of `s` between the trimmable characters at both
   * ends: the result is empty exactly when every character of `s` is
   * trimmable, and otherwise starts and ends with a character that is not.
   */
  lemma TrimSpec(s: string)
    ensures var r := Trim(s); var a := |s| - |TrimStart(s)|;
      0 <= a && a + |r| <= |s| && r == s[a..a + |r|] &&
      (forall i :: 0 <= i < a ==> IsTrimmable(s[i])) &&
      (forall i :: a + |r| <= i < |s| ==> IsTrimmable(s[i])) &&
      (r != [] ==> !IsTrimmable(r[0]) && !IsTrimmable(r[|r| - 1])) &&
      (r == [] <==> forall i :: 0 <= i < |s| ==> IsTrimmable(s[i]))
  {
    var t := TrimStart(s);
    var r := TrimEnd(t);
    TrimStartSpec(s);
    TrimEndSpec(t);
    assert r != [] ==> r[0] == t[0];
    assert r == s[|s| - |t|..][..|r|];
  }

  /** A string with no trimmable character at either end is its own trim. */
  lemma TrimFixed(s: string)
    requires s != [] ==> !IsTrimmable(s[0]) && !IsTrimmable(s[|s| - 1])
    ensures Trim(s) == s
  {
  }

  // ----------------------------------------------------------- toLowerCase()

  /** Case folding of one character; only ASCII `A`-`Z` are folded. */
  function LowerChar(c: char): (d: char)
    ensures !('A' <= d <= 'Z')
    ensures 'A' <= c <= 'Z' ==> d as int == c as int + 32
    ensures !('A' <= c <= 'Z') ==> d == c
  {
    if 'A' <= c <= 'Z' then (c as int + ('a' as int - 'A' as int)) as char else c
  }

  /** `s.toLowerCase()` restricted to ASCII case folding. */
  function ToLower(s: string): (r: string)
    ensures |r| == |s|
    ensures forall i :: 0 <= i < |s| ==> r[i] == LowerChar(s[i])
  {
    if s == [] then [] else [LowerChar(s[0])] + ToLower(s[1..])
  }

  /** Folding case twice is folding it once. */
  lemma ToLowerTwice(s: string)
    ensures ToLower(ToLower(s)) == ToLower(s)
  {
  }

  /** Case folding and trimming commute: folding never makes a character trimmable or not. */
  lemma {:induction false} ToLowerTrim(s: string)
    ensures Trim(ToLower(s)) == ToLower(Trim(s))
  {
    ToLowerTrimStart(s);
    ToLowerTrimEnd(TrimStart(s));
  }

  lemma {:induction false} ToLowerTrimStart(s: string)
    ensures TrimStart(ToLower(s)) == ToLower(TrimStart(s))
  {
    var t := ToLower(s);
    if s != [] {
      assert t[0] == LowerChar(s[0]);
      if IsTrimmable(s[0]) {
        assert t[1..] == ToLower(s[1..]);
        ToLowerTrimStart(s[1..]);
      } else {
        assert !IsTrimmable(t[0]);
      }
    }
  }

  lemma {:induction false} ToLowerTrimEnd(s: string)
    ensures TrimEnd(ToLower(s)) == ToLower(TrimEnd(s))
  {
    var t := ToLower(s);
    if s != [] {
      var n := |s| - 1;
      assert t[n] == LowerChar(s[n]);
      if IsTrimmable(s[n]) {
        assert t[..n] == ToLower(s[..n]);
        ToLowerTrimEnd(s[..n]);
      } else {
        assert !IsTrimmable(t[n]);
      }
    }
  }

  // ------------------------------------------------------- splitting, joining

  /**
   * The raw fields of `s` between occurrences of `sep`: one more field than
   * there are separators, empty fields included.
   */
  function SplitOn(s: string, sep: char): (parts: seq<string>)
    ensures |parts| >= 1
    ensures forall i :: 0 <= i < |parts| ==> sep !in parts[i]
  {
    if s == [] then [[]]
    else
      var rest := SplitOn(s[1..], sep);
      if s[0] == sep then [[]] + rest else [[s[0]] + rest[0]] + rest[1..]
  }

  /** `String.join(sep, parts)`. */
  function JoinOn(parts: seq<string>, sep: char): string {
    if |parts| == 0 then []
    else if |parts| == 1 then parts[0]
    else parts[0] + [sep] + JoinOn(parts[1..], sep)
  }

  /** Drops the empty fields at the end of a list of fields. */
  function DropTrailingEmpty(parts: seq<string>): (r: seq<string>)
    ensures r <= parts
    ensures forall i :: |r| <= i < |parts| ==> parts[i] == []
    ensures r != [] ==> r[|r| - 1] != []
  {
    if parts != [] && parts[|parts| - 1] == [] then DropTrailingEmpty(parts[..|parts| - 1]) else parts
  }

  /**
   * `s.split(sep)` for a single, non-meta separator character: a string
   * without the separator is returned whole (even when it is empty);
   * otherwise the raw fields are returned without their trailing empty ones.
   */
  function Split(s: string, sep: char): (parts: seq<string>)
    ensures forall i :: 0 <= i < |parts| ==> sep !in parts[i]
  {
    if sep !in s then [s] else DropTrailingEmpty(SplitOn(s, sep))
  }

  /** `n` empty fields. */
  function Empties(n: nat): (ps: seq<string>)
    ensures |ps| == n && forall i :: 0 <= i < n ==> ps[i] == []
  {
    seq(n, _ => [])
  }

  /** A character other than the separator joins the first field. */
  lemma SplitOnCons(c: char, y: string, sep: char)
    requires c != sep
    ensures SplitOn([c] + y, sep) == [[c] + SplitOn(y, sep)[0]] + SplitOn(y, sep)[1..]
  {
    assert ([c] + y)[1..] == y;
  }

  /** Splitting distributes over a separator-free prefix. */
  lemma {:induction false} SplitOnPrefix(x: string, y: string, sep: char)
    requires sep !in x
    ensures SplitOn(x + y, sep) == [x + SplitOn(y, sep)[0]] + SplitOn(y, sep)[1..]
  {
    var ys := SplitOn(y, sep);
    if x == [] {
      assert x + y == y;
      assert x + ys[0] == ys[0];
    } else {
      var c, x' := x[0], x[1..];
      assert x == [c] + x';
      SplitOnPrefix(x', y, sep);
      assert x + y == [c] + (x' + y);
      SplitOnCons(c, x' + y, sep);
      assert [c] + (x' + ys[0]) == x + ys[0];
    }
  }

  /** A separator-free field followed by a separator splits off as one field. */
  lemma SplitOnField(x: string, y: string, sep: char)
    requires sep !in x
    ensures SplitOn(x + [sep] + y, sep) == [x] + SplitOn(y, sep)
  {
    SplitOnPrefix(x, [sep] + y, sep);
    assert x + [sep] + y == x + ([sep] + y);
    assert ([sep] + y)[1..] == y;
    assert SplitOn([sep] + y, sep) == [[]] + SplitOn(y, sep);
    assert x + [] == x;
  }

  /** A separator-free string splits into itself. */
  lemma SplitOnWhole(x: string, sep: char)
    requires sep !in x
    ensures SplitOn(x, sep) == [x]
  {
    SplitOnPrefix(x, [], sep);
    assert x + [] == x;
  }

  /** Joining the raw fields gives back the string. */
  lemma {:induction false} JoinSplit(s: string, sep: char)
    ensures JoinOn(SplitOn(s, sep), sep) == s
  {
    if s != [] {
      var rest := SplitOn(s[1..], sep);
      JoinSplit(s[1..], sep);
      if s[0] == sep {
        assert ([[]] + rest)[1..] == rest;
      } else if |rest| > 1 {
        var parts := [[s[0]] + rest[0]] + rest[1..];
        assert parts[1..] == rest[1..];
        assert JoinOn(rest, sep) == rest[0] + [sep] + JoinOn(rest[1..], sep);
      }
    }
  }

  /** Splitting the join of separator-free fields gives back the fields. */
  lemma {:induction false} SplitJoin(parts: seq<string>, sep: char)
    requires |parts| >= 1
    requires forall i :: 0 <= i < |parts| ==> sep !in parts[i]
    ensures SplitOn(JoinOn(parts, sep), sep) == parts
  {
    if |parts| == 1 {
      SplitOnWhole(parts[0], sep);
    } else {
      SplitJoin(parts[1..], sep);
      SplitOnField(parts[0], JoinOn(parts[1..], sep), sep);
    }
  }

  /** Appending an empty field to a join appends one separator. */
  lemma {:induction false} JoinSnocEmpty(parts: seq<string>, sep: char)
    requires |parts| >= 1
    ensures JoinOn(parts + [[]], sep) == JoinOn(parts, sep) + [sep]
  {
    if |parts| > 1 {
      JoinSnocEmpty(parts[1..], sep);
      assert (parts + [[]])[1..] == parts[1..] + [[]];
    }
  }

  /** Appending `n` empty fields to a join appends `n` separators. */
  lemma {:induction false} JoinPad(parts: seq<string>, n: nat, sep: char)
    requires |parts| >= 1
    ensures JoinOn(parts + Empties(n), sep) == JoinOn(parts, sep) + Repeat(sep, n)
  {
    if n > 0 {
      var shorter := parts + Empties(n - 1);
      JoinPad(parts, n - 1, sep);
      JoinSnocEmpty(shorter, sep);
      assert parts + Empties(n) == shorter + [[]];
      assert Repeat(sep, n) == Repeat(sep, n - 1) + [sep];
      assert JoinOn(parts, sep) + Repeat(sep, n - 1) + [sep] == JoinOn(parts, sep) + Repeat(sep, n);
    } else {
      assert parts + Empties(0) == parts;
      assert JoinOn(parts, sep) + Repeat(sep, 0) == JoinOn(parts, sep);
    }
  }

  /** Dropping trailing empties from padded fields gives back the fields. */
  lemma {:induction false} DropPadding(parts: seq<string>, n: nat)
    requires parts != [] && parts[|parts| - 1] != []
    ensures DropTrailingEmpty(parts + Empties(n)) == parts
  {
    if n > 0 {
      assert (parts + Empties(n))[..|parts| + n - 1] == parts + Empties(n - 1);
      DropPadding(parts, n - 1);
    } else {
      assert parts + Empties(0) == parts;
    }
  }

  /**
   * `split` inverts `String.join` on separator-free fields whose last field is
   * not empty, even when the joined text carries extra separators at its end.
   */
  lemma SplitRecoversFields(parts: seq<string>, n: nat, sep: char)
    requires |parts| >= 1 && parts[|parts| - 1] != []
    requires forall i :: 0 <= i < |parts| ==> sep !in parts[i]
    ensures Split(JoinOn(parts, sep) + Repeat(sep, n), sep) == parts
  {
    var s := JoinOn(parts, sep) + Repeat(sep, n);
    JoinPad(parts, n, sep);
    var padded := parts + Empties(n);
    assert forall i :: 0 <= i < |padded| ==> sep !in padded[i] by {
      forall i | 0 <= i < |padded| ensures sep !in padded[i] {
        if i >= |parts| { assert padded[i] == []; }
      }
    }
    SplitJoin(padded, sep);
    if sep !in s {
      SplitOnWhole(s, sep);
      assert padded == [s];
      assert |parts| == 1 && parts[0] == s;
    } else {
      DropPadding(parts, n);
    }
  }

  /**
   * What `split` keeps and what it drops: the fields it returns contain no
   * separator, they join back to a prefix of the string, and every character
   * after that prefix is a separator.
   */
  lemma SplitLosesOnlySeparators(s: string, sep: char)
    ensures var j := JoinOn(Split(s, sep), sep);
      j <= s && forall i :: |j| <= i < |s| ==> s[i] == sep
  {
    if sep in s {
      var raw := SplitOn(s, sep);
      var kept := Split(s, sep);
      JoinSplit(s, sep);
      var k := |raw| - |kept|;
      assert raw == kept + Empties(k);
      if kept != [] {
        JoinPad(kept, k, sep);
      } else {
        JoinPad([[]], k - 1, sep);
        assert raw == [[]] + Empties(k - 1);
      }
    }
  }

  // ------------------------------------------------------ terminated lines

  /** Each string followed by the terminator `sep`, concatenated. */
  function Terminated(ls: seq<string>, sep: char): string {
    if ls == [] then [] else ls[0] + [sep] + Terminated(ls[1..], sep)
  }

  /** Appending one more line appends it and its terminator. */
  lemma {:induction false} TerminatedSnoc(ls: seq<string>, x: string, sep: char)
    ensures Terminated(ls + [x], sep) == Terminated(ls, sep) + x + [sep]
  {
    if ls == [] {
      assert [] + [x] == [x];
    } else {
      assert (ls + [x])[1..] == ls[1..] + [x];
      TerminatedSnoc(ls[1..], x, sep);
    }
  }

  lemma ConcatAssoc<T>(a: seq<T>, b: seq<T>, c: seq<T>)
    ensures a + b + c == a + (b + c)
  {
  }

  /** Splitting terminated separator-free lines gives back the lines, then whatever follows. */
  lemma {:induction false} SplitTerminated(ls: seq<string>, tail: string, sep: char)
    requires forall i :: 0 <= i < |ls| ==> sep !in ls[i]
    ensures SplitOn(Terminated(ls, sep) + tail, sep) == ls + SplitOn(tail, sep)
  {
    if ls != [] {
      var l, ls' := ls[0], ls[1..];
      var rest := Terminated(ls', sep) + tail;
      forall i | 0 <= i < |ls'| ensures sep !in ls'[i] {
        assert ls'[i] == ls[i + 1];
      }
      SplitTerminated(ls', tail, sep);
      ConcatAssoc(l + [sep], Terminated(ls', sep), tail);
      SplitOnField(l, rest, sep);
      ConcatAssoc([l], ls', SplitOn(tail, sep));
      assert ls == [l] + ls';
    } else {
      assert Terminated(ls, sep) + tail == tail;
    }
  }
}
