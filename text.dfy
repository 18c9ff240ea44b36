/** The string operations the source uses from Python's `str`: `strip()`,
    `lower()`, `split(sep)`, the `in` substring test, and decimal formatting of
    counts. */
module Text {

  /** Python's `str.isspace` for one character: the characters that
      `str.strip()` with no argument removes. */
  predicate IsSpace(c: char) {
    || c == ' ' || c == '\t' || c == '\n' || c == '\r'
    || c == '\U{B}' || c == '\U{C}'
    || ('\U{1C}' <= c <= '\U{1F}')
    || c == '\U{85}' || c == '\U{A0}' || c == '\U{1680}'
    || ('\U{2000}' <= c <= '\U{200A}')
    || c == '\U{2028}' || c == '\U{2029}' || c == '\U{202F}'
    || c == '\U{205F}' || c == '\U{3000}'
  }

  predicate AllSpace(s: string) {
    forall i | 0 <= i < |s| :: IsSpace(s[i])
  }

  /** `s.lstrip()`: the suffix of `s` left after dropping leading whitespace. */
  function TrimLeft(s: string): (r: string)
    ensures |r| <= |s| && r == s[|s| - |r|..]
    ensures AllSpace(s[..|s| - |r|])
    ensures r == [] || !IsSpace(r[0])
  {
    if |s| > 0 && IsSpace(s[0]) then
      var r := TrimLeft(s[1..]);
      assert s[1..][..|s[1..]| - |r|] == s[1..|s| - |r|];
      r
    else s
  }

  /** `s.rstrip()`: the prefix of `s` left after dropping trailing whitespace. */
  function TrimRight(s: string): (r: string)
    ensures |r| <= |s| && r == s[..|r|]
    ensures AllSpace(s[|r|..])
    ensures r == [] || !IsSpace(r[|r| - 1])
  {
    if |s| > 0 && IsSpace(s[|s| - 1]) then
      var t := s[..|s| - 1];
      var r := TrimRight(t);
      assert r == s[..|r|] by { assert t[..|r|] == s[..|r|]; }
      assert s[|r|..] == t[|r|..] + [s[|s| - 1]];
      r
    else s
  }

  /** Neither starts nor ends with whitespace. */
  predicate Trimmed(s: string) {
    s == [] || (!IsSpace(s[0]) && !IsSpace(s[|s| - 1]))
  }

  /** `s.strip()`: `s` without its leading and trailing whitespace; what is
      left neither starts nor ends with whitespace. */
  function Strip(s: string): (r: string)
    ensures |r| <= |s|
    ensures Trimmed(r)
  {
    var l := TrimLeft(s);
    var r := TrimRight(l);
    assert r != [] ==> r[0] == l[0];
    r
  }

  /** Surrounding a string with whitespace does not change what it strips to. */
  lemma {:induction false} StripIgnoresPadding(pre: string, s: string, post: string)
    requires AllSpace(pre) && AllSpace(post)
    ensures Strip(pre + s + post) == Strip(s)
  {
    assert pre + s + post == pre + (s + post);
    TrimLeftPadding(pre, s + post);
    if AllSpace(s) {
      AllSpaceTrimsEmpty(s);
      assert AllSpace(s + post);
      AllSpaceTrimsEmpty(s + post);
    } else {
      TrimLeftSuffix(s, post);
      TrimRightPadding(TrimLeft(s), post);
    }
  }

  lemma {:induction false} TrimLeftPadding(pre: string, s: string)
    requires AllSpace(pre)
    ensures TrimLeft(pre + s) == TrimLeft(s)
  {
    if pre != [] {
      assert (pre + s)[0] == pre[0] && IsSpace(pre[0]);
      assert (pre + s)[1..] == pre[1..] + s;
      assert AllSpace(pre[1..]) by {
        forall i | 0 <= i < |pre[1..]| ensures IsSpace(pre[1..][i]) {
          assert pre[1..][i] == pre[i + 1];
        }
      }
      TrimLeftPadding(pre[1..], s);
    } else {
      assert pre + s == s;
    }
  }

  lemma {:induction false} TrimLeftSuffix(s: string, post: string)
    requires !AllSpace(s)
    ensures TrimLeft(s + post) == TrimLeft(s) + post
  {
    assert (s + post)[0] == s[0];
    assert (s + post)[1..] == s[1..] + post;
    if IsSpace(s[0]) {
      assert !AllSpace(s[1..]) by {
        var i :| 0 <= i < |s| && !IsSpace(s[i]);
        assert s[1..][i - 1] == s[i];
      }
      TrimLeftSuffix(s[1..], post);
    }
  }

  lemma {:induction false} AllSpaceTrimsEmpty(s: string)
    requires AllSpace(s)
    ensures TrimLeft(s) == []
  {
    if s != [] {
      assert IsSpace(s[0]);
      assert AllSpace(s[1..]) by {
        forall i | 0 <= i < |s[1..]| ensures IsSpace(s[1..][i]) {
          assert s[1..][i] == s[i + 1];
        }
      }
      AllSpaceTrimsEmpty(s[1..]);
    }
  }

  lemma {:induction false} TrimRightPadding(s: string, post: string)
    requires AllSpace(post)
    ensures TrimRight(s + post) == TrimRight(s)
  {
    if post != [] {
      var n := |post| - 1;
      assert (s + post)[|s + post| - 1] == post[n] && IsSpace(post[n]);
      assert (s + post)[..|s + post| - 1] == s + post[..n];
      assert AllSpace(post[..n]) by {
        forall i | 0 <= i < n ensures IsSpace(post[..n][i]) {
          assert post[..n][i] == post[i];
        }
      }
      TrimRightPadding(s, post[..n]);
    } else {
      assert s + post == s;
    }
  }

  /** A string is its stripped form with whitespace on either side. */
  lemma StripFrame(s: string) returns (pre: string, post: string)
    ensures AllSpace(pre) && AllSpace(post)
    ensures s == pre + Strip(s) + post
  {
    var l := TrimLeft(s);
    var r := TrimRight(l);
    pre := s[..|s| - |l|];
    post := l[|r|..];
    SplitAt(s, |s| - |l|);
    SplitAt(l, |r|);
    AppendAssoc(pre, r, post);
  }

  lemma SplitAt(s: string, k: nat)
    requires k <= |s|
    ensures s == s[..k] + s[k..]
  {
  }

  lemma NotInAppend(c: char, a: string, b: string)
    requires c !in a && c !in b
    ensures c !in a + b
  {
  }

  lemma AppendAssoc(a: string, b: string, c: string)
    ensures a + (b + c) == a + b + c
  {
  }

  /** The three parts of `a + b + c` can be cut back out of it. */
  lemma Sandwich(a: string, b: string, c: string)
    ensures var s := a + b + c;
      && |s| == |a| + |b| + |c|
      && s[..|a|] == a && s[|a|..|s| - |c|] == b && s[|s| - |c|..] == c
  {
    var s := a + b + c;
    assert s[..|a|] == a;
    assert s[|a|..|s| - |c|] == b;
    assert s[|s| - |c|..] == c;
  }

  lemma ConcatParts(a: string, b: string)
    ensures (a + b)[..|a|] == a && (a + b)[|a|..] == b
  {
  }

  /** Python's `str.lower()` on one character, for the ASCII letters. */
  function LowerChar(c: char): (d: char)
    ensures 'A' <= c <= 'Z' ==> d as int == c as int + 32
    ensures !('A' <= c <= 'Z') ==> d == c
  {
    if 'A' <= c <= 'Z' then (c as int + 32) as char else c
  }

  function Lower(s: string): (r: string)
    ensures |r| == |s|
    ensures forall i | 0 <= i < |s| :: r[i] == LowerChar(s[i])
  {
    if s == [] then [] else [LowerChar(s[0])] + Lower(s[1..])
  }

  /** Python's `s.split(sep)` for a one-character separator: always at least
      one piece, and no piece contains the separator. */
  function Split(s: string, sep: char): (parts: seq<string>)
    ensures |parts| >= 1
    ensures forall k | 0 <= k < |parts| :: sep !in parts[k]
  {
    if s == [] then [[]]
    else
      var rest := Split(s[1..], sep);
      if s[0] == sep then [[]] + rest
      else [[s[0]] + rest[0]] + rest[1..]
  }

  /** `sep.join(parts)`, the inverse of Split. */
  function Join(parts: seq<string>, sep: char): string
    requires |parts| >= 1
  {
    if |parts| == 1 then parts[0] else parts[0] + [sep] + Join(parts[1..], sep)
  }

  /** Splitting loses nothing: joining the pieces gives back the input. */
  lemma {:induction false} JoinSplit(s: string, sep: char)
    ensures Join(Split(s, sep), sep) == s
  {
    if s != [] {
      var rest := Split(s[1..], sep);
      JoinSplit(s[1..], sep);
      if s[0] != sep {
        if |rest| > 1 {
          assert ([[s[0]] + rest[0]] + rest[1..])[1..] == rest[1..];
        }
      }
    }
  }

  /** Joining pieces that hold no separator and splitting again gives the
      pieces back. */
  lemma {:induction false} SplitJoin(parts: seq<string>, sep: char)
    requires |parts| >= 1
    requires forall k | 0 <= k < |parts| :: sep !in parts[k]
    ensures Split(Join(parts, sep), sep) == parts
  {
    if |parts| == 1 {
      SplitPrefix(parts[0], [], sep);
      assert parts[0] + [] == parts[0];
    } else {
      SplitJoin(parts[1..], sep);
      var rest := Join(parts[1..], sep);
      SplitPrefix(parts[0], [sep] + rest, sep);
      assert parts[0] + [sep] + rest == parts[0] + ([sep] + rest);
      assert ([sep] + rest)[1..] == rest;
      var t := Split([sep] + rest, sep);
      assert t == [[]] + Split(rest, sep);
      assert parts[0] + t[0] == parts[0];
      assert parts == [parts[0]] + parts[1..];
    }
  }

  /** A separator-free prefix joins the first piece of what follows it. */
  lemma {:induction false} SplitPrefix(w: string, tail: string, sep: char)
    requires sep !in w
    ensures var t := Split(tail, sep); Split(w + tail, sep) == [w + t[0]] + t[1..]
  {
    var t := Split(tail, sep);
    if w == [] {
      assert w + tail == tail;
      assert w + t[0] == t[0];
      assert [t[0]] + t[1..] == t;
    } else {
      var x := w + tail;
      assert x[0] == w[0] && x[1..] == w[1..] + tail;
      SplitPrefix(w[1..], tail, sep);
      var r := Split(x[1..], sep);
      assert r[0] == w[1..] + t[0] && r[1..] == t[1..];
      assert Split(x, sep) == [[x[0]] + r[0]] + r[1..];
      assert [x[0]] + r[0] == w + t[0];
    }
  }

  /** Split never makes more pieces than one plus the number of separators. */
  lemma {:induction false} SplitCount(s: string, sep: char)
    ensures |Split(s, sep)| == Occurrences(s, sep) + 1
  {
    if s != [] {
      SplitCount(s[1..], sep);
    }
  }

  function Occurrences(s: string, c: char): nat {
    if s == [] then 0 else (if s[0] == c then 1 else 0) + Occurrences(s[1..], c)
  }

  lemma {:induction false} OccurrencesZero(s: string, c: char)
    ensures Occurrences(s, c) == 0 <==> c !in s
  {
    if s != [] {
      OccurrencesZero(s[1..], c);
      assert s == [s[0]] + s[1..];
    }
  }

  /** `p` occurs in `s` starting at position `i`. */
  predicate OccursAt(s: string, p: string, i: int) {
    0 <= i <= |s| - |p| && s[i..i + |p|] == p
  }

  /** `p in s` for strings: `p` occurs at some position of `s`. */
  predicate Contains(s: string, p: string) {
    exists i | 0 <= i <= |s| - |p| :: OccursAt(s, p, i)
  }

  /** The same test tried position by position, as a search from `i` on. */
  predicate ContainsFrom(s: string, p: string, i: nat)
    requires i <= |s|
    decreases |s| - i
  {
    i + |p| <= |s| && (s[i..i + |p|] == p || ContainsFrom(s, p, i + 1))
  }

  lemma {:induction false} ContainsFromSpec(s: string, p: string, i: nat)
    requires i <= |s|
    ensures ContainsFrom(s, p, i) <==> exists j | i <= j <= |s| - |p| :: OccursAt(s, p, j)
    decreases |s| - i
  {
    if i + |p| <= |s| && s[i..i + |p|] != p {
      ContainsFromSpec(s, p, i + 1);
      if exists j | i <= j <= |s| - |p| :: OccursAt(s, p, j) {
        var j :| i <= j <= |s| - |p| && OccursAt(s, p, j);
        assert j != i;
      }
    } else if i + |p| <= |s| {
      assert OccursAt(s, p, i);
    }
  }

  /** Whitespace around a string cannot create or hide an occurrence of a
      pattern that starts and ends with a non-space character. */
  lemma ContainsIgnoresPadding(pre: string, s: string, post: string, p: string)
    requires AllSpace(pre) && AllSpace(post)
    requires p != [] && !IsSpace(p[0]) && !IsSpace(p[|p| - 1])
    ensures Contains(pre + s + post, p) <==> Contains(s, p)
  {
    var t := pre + s + post;
    if Contains(t, p) {
      var i :| 0 <= i <= |t| - |p| && OccursAt(t, p, i);
      assert t[i] == p[0];
      assert t[i + |p| - 1] == p[|p| - 1];
      var j := i - |pre|;
      assert 0 <= j <= |s| - |p|;
      assert s[j..j + |p|] == t[i..i + |p|];
      assert OccursAt(s, p, j);
    }
    if Contains(s, p) {
      var j :| 0 <= j <= |s| - |p| && OccursAt(s, p, j);
      assert t[j + |pre|..j + |pre| + |p|] == s[j..j + |p|];
      assert OccursAt(t, p, j + |pre|);
    }
  }

  function DigitChar(d: nat): (c: char)
    requires d < 10
    ensures '0' <= c <= '9' && c as int - '0' as int == d
  {
    ('0' as int + d) as char
  }

  /** Python's `str(n)` (and `f"{n}"`) for a natural number. */
  function NatToString(n: nat): (s: string)
    ensures |s| >= 1
    ensures forall k | 0 <= k < |s| :: '0' <= s[k] <= '9'
    ensures n > 0 ==> s[0] != '0'
    ensures Value(s) == n
  {
    if n < 10 then [DigitChar(n)]
    else
      var h := NatToString(n / 10);
      var d := DigitChar(n % 10);
      var s := h + [d];
      assert forall k | 0 <= k < |s| :: '0' <= s[k] <= '9' by {
        forall k | 0 <= k < |s| ensures '0' <= s[k] <= '9' {
          if k < |h| {
            assert s[k] == h[k];
          }
        }
      }
      assert s[..|s| - 1] == h;
      assert Value(s) == 10 * (n / 10) + n % 10;
      s
  }

  /** The number a string of decimal digits denotes. */
  function Value(s: string): int
    requires forall k | 0 <= k < |s| :: '0' <= s[k] <= '9'
  {
    if s == [] then 0 else 10 * Value(s[..|s| - 1]) + (s[|s| - 1] as int - '0' as int)
  }
}
