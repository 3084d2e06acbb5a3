/**
 * Whitespace tokenisation of one line of an embedding file, as Python's
 * `line.strip().split()` does it: `strip()` drops leading and trailing
 * whitespace, `split()` with no separator cuts the rest at every run of
 * whitespace and never yields an empty field.
 */
module Tokenize {

  /** Python's `str.isspace()` on ASCII characters: tab, line feed, vertical
      tab, form feed and carriage return (9..13), the four information
      separators (28..31) and the space (32). */
  predicate IsSpace(c: char) {
    var n := c as int;
    n == 32 || 9 <= n <= 13 || 28 <= n <= 31
  }

  predicate AllSpace(s: string) {
    forall i :: 0 <= i < |s| ==> IsSpace(s[i])
  }

  /** A field as `split()` yields it: non-empty, no whitespace inside. */
  predicate IsWord(s: string) {
    s != [] && forall i :: 0 <= i < |s| ==> !IsSpace(s[i])
  }

  /** The length of the longest whitespace-free prefix of `s`. */
  function WordLength(s: string): nat {
    if s == [] || IsSpace(s[0]) then 0 else 1 + WordLength(s[1..])
  }

  /** `str.split()` with no separator: the maximal whitespace-free runs of `s`, in order. */
  function Split(s: string): seq<string>
    decreases |s|
  {
    if s == [] then []
    else if IsSpace(s[0]) then Split(s[1..])
    else
      var n := WordLength(s);
      assert n > 0 by { assert !IsSpace(s[0]); }
      WordLengthIsMaximalRun(s);
      [s[..n]] + Split(s[n..])
  }

  /** `str.lstrip()`: `s` without its leading whitespace. */
  function TrimLeft(s: string): string {
    if s != [] && IsSpace(s[0]) then TrimLeft(s[1..]) else s
  }

  /** `str.rstrip()`: `s` without its trailing whitespace. */
  function TrimRight(s: string): string {
    if s != [] && IsSpace(s[|s| - 1]) then TrimRight(s[..|s| - 1]) else s
  }

  /** `str.strip()`: `s` without its leading and its trailing whitespace. */
  function Strip(s: string): string {
    TrimRight(TrimLeft(s))
  }

  /** The fields of one line: `line.strip().split()`. */
  function Fields(line: string): seq<string> {
    Split(Strip(line))
  }

  /** The non-whitespace characters of `s`, in order. */
  function NonSpace(s: string): string {
    if s == [] then [] else (if IsSpace(s[0]) then [] else [s[0]]) + NonSpace(s[1..])
  }

  /** The fields glued back together with nothing between them. */
  function Concat(fs: seq<string>): string {
    if fs == [] then [] else fs[0] + Concat(fs[1..])
  }

  /** The fields written out with one space between neighbours. */
  function JoinWords(fs: seq<string>): string {
    if fs == [] then []
    else if |fs| == 1 then fs[0]
    else fs[0] + " " + JoinWords(fs[1..])
  }

  /** `WordLength` is the length of the maximal whitespace-free prefix:
      every character before it is a non-space and the one at it, if any,
      is whitespace. */
  lemma {:induction false} WordLengthIsMaximalRun(s: string)
    ensures WordLength(s) <= |s|
    ensures forall i :: 0 <= i < WordLength(s) ==> !IsSpace(s[i])
    ensures WordLength(s) == |s| || IsSpace(s[WordLength(s)])
    decreases |s|
  {
    if s != [] && !IsSpace(s[0]) {
      WordLengthIsMaximalRun(s[1..]);
    }
  }

  /** Every field `split()` yields is non-empty and free of whitespace. */
  lemma {:induction false} SplitYieldsWords(s: string)
    ensures forall k :: 0 <= k < |Split(s)| ==> IsWord(Split(s)[k])
    decreases |s|
  {
    if s == [] {
    } else if IsSpace(s[0]) {
      SplitYieldsWords(s[1..]);
    } else {
      var n := WordLength(s);
      WordLengthIsMaximalRun(s);
      SplitYieldsWords(s[n..]);
      assert Split(s) == [s[..n]] + Split(s[n..]);
    }
  }

  /** `lstrip()` removes exactly the maximal whitespace prefix: what it drops
      is all whitespace and what it keeps is a suffix that starts with a
      non-space, or is empty. */
  lemma {:induction false} TrimLeftDropsLeadingSpace(s: string)
    ensures |TrimLeft(s)| <= |s| && TrimLeft(s) == s[|s| - |TrimLeft(s)|..]
    ensures AllSpace(s[..|s| - |TrimLeft(s)|])
    ensures TrimLeft(s) == [] || !IsSpace(TrimLeft(s)[0])
    decreases |s|
  {
    if s != [] && IsSpace(s[0]) {
      TrimLeftDropsLeadingSpace(s[1..]);
      var m := |s| - |TrimLeft(s)|;
      assert s[..m] == [s[0]] + s[1..][..m - 1];
    }
  }

  /** `rstrip()` removes exactly the maximal whitespace suffix. */
  lemma {:induction false} TrimRightDropsTrailingSpace(s: string)
    ensures |TrimRight(s)| <= |s| && TrimRight(s) == s[..|TrimRight(s)|]
    ensures AllSpace(s[|TrimRight(s)|..])
    ensures TrimRight(s) == [] || !IsSpace(TrimRight(s)[|TrimRight(s)| - 1])
    decreases |s|
  {
    if s != [] && IsSpace(s[|s| - 1]) {
      var t := s[..|s| - 1];
      TrimRightDropsTrailingSpace(t);
      var m := |TrimRight(s)|;
      assert s[m..] == t[m..] + [s[|s| - 1]];
    }
  }

  /** `strip()` keeps the part of `s` between its leading and its trailing
      whitespace: a slice of `s` with only whitespace around it, that neither
      starts nor ends with whitespace, and that is empty exactly when `s` is
      blank. */
  lemma StripDropsOuterSpace(s: string)
    ensures var r := Strip(s);
            && (r == [] || (!IsSpace(r[0]) && !IsSpace(r[|r| - 1])))
            && (r == [] <==> AllSpace(s))
            && exists i :: 0 <= i <= |s| - |r| && s[i..i + |r|] == r
                           && AllSpace(s[..i]) && AllSpace(s[i + |r|..])
  {
    var t := TrimLeft(s);
    TrimLeftDropsLeadingSpace(s);
    TrimRightDropsTrailingSpace(t);
    var r := TrimRight(t);
    var i := |s| - |t|;
    assert s[i..i + |r|] == r;
    assert s[i + |r|..] == t[|r|..];
    assert s == s[..i] + t;
    if t != [] {
      assert s[i] == t[0];
    }
    if r == [] {
      assert t == t[|r|..];
    }
  }

  /** Leading whitespace produces no field. */
  lemma {:induction false} SplitSkipsLeadingSpace(w: string, b: string)
    requires AllSpace(w)
    ensures Split(w + b) == Split(b)
    decreases |w|
  {
    if w != [] {
      assert IsSpace((w + b)[0]);
      assert (w + b)[1..] == w[1..] + b;
      SplitSkipsLeadingSpace(w[1..], b);
      assert Split(w + b) == Split(w[1..] + b);
    } else {
      assert w + b == b;
    }
  }

  /** A line yields no field exactly when it is blank. */
  lemma {:induction false} SplitEmptyIffBlank(s: string)
    ensures Split(s) == [] <==> AllSpace(s)
    decreases |s|
  {
    if s != [] && IsSpace(s[0]) {
      SplitEmptyIffBlank(s[1..]);
      assert AllSpace(s) <==> AllSpace(s[1..]);
    }
  }

  /** Cutting the first word off `a + t` when `t` starts with whitespace
      leaves the first word of `a`. */
  lemma WordLengthStopsAtSpace(a: string, t: string)
    requires t != [] && IsSpace(t[0])
    ensures WordLength(a + t) == WordLength(a)
  {
    WordLengthIsMaximalRun(a);
    WordLengthIsMaximalRun(a + t);
    var m := WordLength(a);
    assert forall i :: 0 <= i < m ==> !IsSpace((a + t)[i]) by {
      forall i | 0 <= i < m ensures (a + t)[i] == a[i] { }
    }
    assert IsSpace((a + t)[m]);
  }

  /** A run of whitespace between two pieces of text separates their fields:
      the fields of the whole are those of the left piece followed by those
      of the right piece, however long the run. */
  lemma {:induction false} SplitAtSpaceRun(a: string, w: string, b: string)
    requires w != [] && AllSpace(w)
    ensures Split(a + w + b) == Split(a) + Split(b)
    decreases |a|
  {
    var s := a + w + b;
    if a == [] {
      assert s == w + b;
      SplitSkipsLeadingSpace(w, b);
    } else if IsSpace(a[0]) {
      assert s[1..] == a[1..] + w + b;
      SplitAtSpaceRun(a[1..], w, b);
    } else {
      WordLengthStopsAtSpace(a, w + b);
      WordLengthIsMaximalRun(a);
      assert s == a + (w + b);
      var n := WordLength(a);
      assert s[..n] == a[..n];
      assert s[n..] == a[n..] + w + b;
      SplitAtSpaceRun(a[n..], w, b);
    }
  }

  /** Trailing whitespace produces no field. */
  lemma SplitIgnoresTrailingSpace(a: string, w: string)
    requires AllSpace(w)
    ensures Split(a + w) == Split(a)
  {
    if w != [] {
      SplitAtSpaceRun(a, w, []);
      assert a + w + [] == a + w;
      assert Split(a) + Split([]) == Split(a);
    } else {
      assert a + w == a;
    }
  }

  /** A word is its own only field. */
  lemma {:induction false} SplitWord(f: string)
    requires IsWord(f)
    ensures Split(f) == [f]
  {
    WordLengthIsMaximalRun(f);
    assert WordLength(f) == |f|;
    assert f[..|f|] == f;
    assert f[|f|..] == [];
    assert Split(f) == [f] + Split([]);
  }

  /** Splitting undoes joining with single spaces: any list of fields that
      `split()` could produce is recovered exactly. */
  lemma {:induction false} SplitJoinWords(fs: seq<string>)
    requires forall k :: 0 <= k < |fs| ==> IsWord(fs[k])
    ensures Split(JoinWords(fs)) == fs
  {
    if fs == [] {
    } else if |fs| == 1 {
      SplitWord(fs[0]);
    } else {
      SplitJoinWords(fs[1..]);
      SplitWord(fs[0]);
      SplitAtSpaceRun(fs[0], " ", JoinWords(fs[1..]));
      assert fs == [fs[0]] + fs[1..];
    }
  }

  /** NonSpace distributes over a word-sized prefix. */
  lemma {:induction false} NonSpaceOfWordPrefix(s: string, n: nat)
    requires n <= |s|
    requires forall i :: 0 <= i < n ==> !IsSpace(s[i])
    ensures NonSpace(s) == s[..n] + NonSpace(s[n..])
    decreases n
  {
    if n > 0 {
      NonSpaceOfWordPrefix(s[1..], n - 1);
      assert s[1..][..n - 1] == s[1..n];
      assert s[1..][n - 1..] == s[n..];
      assert s[..n] == [s[0]] + s[1..n];
    }
  }

  /** Splitting loses and reorders no non-whitespace character: the fields,
      concatenated, are the line with its whitespace removed. */
  lemma {:induction false} SplitKeepsAllText(s: string)
    ensures Concat(Split(s)) == NonSpace(s)
    decreases |s|
  {
    if s == [] {
    } else if IsSpace(s[0]) {
      SplitKeepsAllText(s[1..]);
    } else {
      var n := WordLength(s);
      WordLengthIsMaximalRun(s);
      SplitKeepsAllText(s[n..]);
      NonSpaceOfWordPrefix(s, n);
      var r := [s[..n]] + Split(s[n..]);
      assert r[0] == s[..n] && r[1..] == Split(s[n..]);
    }
  }

  /** `strip()` before `split()` changes nothing: the fields of a line are
      its `split()` fields. */
  lemma FieldsAreSplit(s: string)
    ensures Fields(s) == Split(s)
  {
    var t := TrimLeft(s);
    TrimLeftDropsLeadingSpace(s);
    var lead := s[..|s| - |t|];
    assert s == lead + t;
    SplitSkipsLeadingSpace(lead, t);
    TrimRightKeepsFields(t);
  }

  /** `rstrip()` before `split()` changes nothing. */
  lemma TrimRightKeepsFields(t: string)
    ensures Split(TrimRight(t)) == Split(t)
  {
    TrimRightDropsTrailingSpace(t);
    var r := TrimRight(t);
    var trail := t[|r|..];
    assert t == r + trail;
    SplitIgnoresTrailingSpace(r, trail);
  }

  /** The first field is exactly the first non-whitespace run of the line:
      it starts right after the leading whitespace and stops at the next
      whitespace character or at the end of the line. */
  lemma FirstFieldIsFirstRun(s: string)
    requires Split(s) != []
    ensures var t := TrimLeft(s); var f := Split(s)[0];
            IsWord(f) && |f| <= |t| && f == t[..|f|] && (|f| == |t| || IsSpace(t[|f|]))
  {
    SplitYieldsWords(s);
    var t := TrimLeft(s);
    TrimLeftDropsLeadingSpace(s);
    var lead := s[..|s| - |t|];
    assert s == lead + t;
    SplitSkipsLeadingSpace(lead, t);
    assert t != [] && !IsSpace(t[0]);
    WordLengthIsMaximalRun(t);
  }
}
