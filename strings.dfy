/** The few `str` operations the Rust code relies on: `trim`, `split_once`,
    `splitn(2, ..)` and `repeat`. */
module Strings {
  import opened Wrappers

  /** The whitespace `str::trim` removes, restricted to ASCII (tab, line feed,
      vertical tab, form feed, carriage return and space). */
  predicate IsSpace(c: char) {
    c == ' ' || '\t' <= c <= '\r'
  }

  function TrimStart(s: string): string
    decreases |s|
  {
    if s != [] && IsSpace(s[0]) then TrimStart(s[1..]) else s
  }

  function TrimEnd(s: string): string
    decreases |s|
  {
    if s != [] && IsSpace(s[|s| - 1]) then TrimEnd(s[..|s| - 1]) else s
  }

  /** `TrimStart` keeps a suffix that does not start with whitespace, and what it
      removes is whitespace. */
  lemma {:induction false} TrimStartSpec(s: string)
    ensures |TrimStart(s)| <= |s| && TrimStart(s) == s[|s| - |TrimStart(s)|..]
    ensures TrimStart(s) == [] || !IsSpace(TrimStart(s)[0])
    ensures forall i :: 0 <= i < |s| - |TrimStart(s)| ==> IsSpace(s[i])
    decreases |s|
  {
    if s != [] && IsSpace(s[0]) {
      TrimStartSpec(s[1..]);
      assert forall i :: 1 <= i < |s| ==> s[i] == s[1..][i - 1];
    }
  }

  /** `TrimEnd` keeps a prefix that does not end with whitespace, and what it removes
      is whitespace. */
  lemma {:induction false} TrimEndSpec(s: string)
    ensures |TrimEnd(s)| <= |s| && TrimEnd(s) == s[..|TrimEnd(s)|]
    ensures TrimEnd(s) == [] || !IsSpace(TrimEnd(s)[|TrimEnd(s)| - 1])
    ensures forall i :: |TrimEnd(s)| <= i < |s| ==> IsSpace(s[i])
    decreases |s|
  {
    if s != [] && IsSpace(s[|s| - 1]) {
      TrimEndSpec(s[..|s| - 1]);
    }
  }

  /** `str::trim`: strips whitespace at both ends. */
  function Trim(s: string): string {
    TrimEnd(TrimStart(s))
  }

  /** `Trim` keeps a contiguous piece of `s` with no whitespace at either end and
      removes only whitespace around it. */
  lemma TrimSpec(s: string)
    ensures exists i, j ::
      (0 <= i <= j <= |s| && Trim(s) == s[i..j] &&
       (forall k :: 0 <= k < i ==> IsSpace(s[k])) && (forall k :: j <= k < |s| ==> IsSpace(s[k])))
    ensures Trim(s) == [] || (!IsSpace(Trim(s)[0]) && !IsSpace(Trim(s)[|Trim(s)| - 1]))
  {
    TrimStartSpec(s);
    var t := TrimStart(s);
    TrimEndSpec(t);
    var i := |s| - |t|;
    var j := i + |TrimEnd(t)|;
    assert Trim(s) == s[i..j];
    forall k | j <= k < |s| ensures IsSpace(s[k]) {
      assert s[k] == t[k - i];
    }
  }

  /** Appending whitespace to text that already ends in a non-space does not change
      its trimmed form. */
  lemma {:induction false} TrimEndAppendSpaces(t: string, w: string)
    requires t == [] || !IsSpace(t[|t| - 1])
    requires forall i :: 0 <= i < |w| ==> IsSpace(w[i])
    ensures TrimEnd(t + w) == t
    decreases |w|
  {
    if w == [] {
      assert t + w == t;
    } else {
      var w' := w[..|w| - 1];
      assert (t + w)[..|t + w| - 1] == t + w';
      TrimEndAppendSpaces(t, w');
    }
  }

  /** Text with a non-space at each end followed by whitespace trims back to itself. */
  lemma TrimOfPaddedText(t: string, w: string)
    requires t != [] && !IsSpace(t[0]) && !IsSpace(t[|t| - 1])
    requires forall i :: 0 <= i < |w| ==> IsSpace(w[i])
    ensures Trim(t + w) == t
  {
    assert TrimStart(t + w) == t + w;
    TrimEndAppendSpaces(t, w);
  }

  /** Text made only of whitespace trims to nothing. */
  lemma {:induction false} TrimOfSpaces(w: string)
    requires forall i :: 0 <= i < |w| ==> IsSpace(w[i])
    ensures Trim(w) == []
    decreases |w|
  {
    if w != [] {
      TrimOfSpaces(w[1..]);
      assert forall i :: 0 <= i < |w[1..]| ==> w[1..][i] == w[i + 1];
    }
  }

  /** `sep` occurs in `s` starting at index `i`. */
  predicate MatchAt(s: string, sep: string, i: nat) {
    i + |sep| <= |s| && s[i..i + |sep|] == sep
  }

  /** The index of the first occurrence of `sep` in `s` at or after `from`. */
  function IndexFrom(s: string, sep: string, from: nat): Option<nat>
    decreases |s| - from
  {
    if from + |sep| > |s| then None
    else if s[from..from + |sep|] == sep then Some(from)
    else IndexFrom(s, sep, from + 1)
  }

  lemma {:induction false} IndexFromSpec(s: string, sep: string, from: nat)
    ensures IndexFrom(s, sep, from).Some? ==>
      var i := IndexFrom(s, sep, from).value;
      from <= i && MatchAt(s, sep, i) && forall j: nat :: from <= j < i ==> !MatchAt(s, sep, j)
    ensures IndexFrom(s, sep, from).None? ==> forall j: nat :: from <= j ==> !MatchAt(s, sep, j)
    decreases |s| - from
  {
    if from + |sep| <= |s| && s[from..from + |sep|] != sep {
      IndexFromSpec(s, sep, from + 1);
    }
  }

  /** `s.split_once(sep)` (and `s.splitn(2, sep)` when it yields two parts): the
      text before and after the first occurrence of a non-empty separator. */
  function SplitOnce(s: string, sep: string): Option<(string, string)> {
    match IndexFrom(s, sep, 0)
    case None => None
    case Some(i) => if i + |sep| <= |s| then Some((s[..i], s[i + |sep|..])) else None
  }

  /** `SplitOnce` finds a separator exactly when there is one, and splits at the
      first. */
  lemma SplitOnceSpec(s: string, sep: string)
    ensures SplitOnce(s, sep).Some? <==> exists i: nat :: MatchAt(s, sep, i)
    ensures SplitOnce(s, sep).Some? ==> s == SplitOnce(s, sep).value.0 + sep + SplitOnce(s, sep).value.1
    ensures SplitOnce(s, sep).Some? ==> forall j: nat :: j < |SplitOnce(s, sep).value.0| ==> !MatchAt(s, sep, j)
  {
    IndexFromSpec(s, sep, 0);
    if IndexFrom(s, sep, 0).Some? {
      var i := IndexFrom(s, sep, 0).value;
      assert s == s[..i] + sep + s[i + |sep|..];
    }
  }

  /** A string none of whose characters is `c` has no occurrence of `[c]`. */
  lemma NoMatchWithout(s: string, c: char)
    requires forall k :: 0 <= k < |s| ==> s[k] != c
    ensures forall i: nat :: !MatchAt(s, [c], i)
  {
    forall i: nat ensures !MatchAt(s, [c], i) {
      if i + 1 <= |s| {
        assert s[i..i + 1] == [s[i]];
      }
    }
  }

  /** Splitting `a + sep + b` at its first `sep` gives back `a` and `b` when no
      character of `a` is the first character of `sep`. */
  lemma SplitOnceBefore(a: string, sep: string, b: string)
    requires sep != [] && forall k :: 0 <= k < |a| ==> a[k] != sep[0]
    ensures SplitOnce(a + sep + b, sep) == Some((a, b))
  {
    var s := a + sep + b;
    assert MatchAt(s, sep, |a|) by { assert s[|a|..|a| + |sep|] == sep; }
    SplitOnceSpec(s, sep);
    var a', b' := SplitOnce(s, sep).value.0, SplitOnce(s, sep).value.1;
    assert |a'| <= |a|;
    assert s[|a'|] == (a' + sep + b')[|a'|] == sep[0];
    assert forall k :: 0 <= k < |a| ==> s[k] == a[k];
    assert a' == s[..|a|] == a;
    assert b' == s[|a| + |sep|..] == b;
  }

  /** `c.repeat(n)` for a one-character string. */
  function Repeat(c: char, n: nat): (r: string)
    ensures |r| == n && forall i :: 0 <= i < n ==> r[i] == c
  {
    if n == 0 then [] else Repeat(c, n - 1) + [c]
  }
}
