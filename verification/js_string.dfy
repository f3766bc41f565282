/**
 The JavaScript string operations the worker relies on, over `string`
 (a sequence of Unicode scalar values): `startsWith`, `trim` and
 `split` with a one-character separator.
 */
module JsString {

  /** The WhiteSpace and LineTerminator characters that `String.prototype.trim`
      removes (section 22.1.3.32 of ECMA-262): tab, vertical tab, form feed,
      space, no-break space, the byte-order mark, every space separator of
      category Zs, and the four line terminators. */
  predicate IsWhitespace(c: char) {
    || c == '\t' || c == '\n' || c == '\U{000B}' || c == '\U{000C}' || c == '\r'
    || c == ' ' || c == '\U{00A0}' || c == '\U{1680}'
    || ('\U{2000}' <= c <= '\U{200A}')
    || c == '\U{2028}' || c == '\U{2029}' || c == '\U{202F}' || c == '\U{205F}'
    || c == '\U{3000}' || c == '\U{FEFF}'
  }

  /** Every character of `s` in positions `lo` up to `hi` is whitespace. */
  predicate WhitespaceBetween(s: string, lo: nat, hi: nat)
    requires lo <= hi <= |s|
  {
    forall k :: lo <= k < hi ==> IsWhitespace(s[k])
  }

  predicate AllWhitespace(s: string) {
    WhitespaceBetween(s, 0, |s|)
  }

  /** Neither end of `s` is a whitespace character. */
  predicate NoEdgeWhitespace(s: string) {
    s == [] || (!IsWhitespace(s[0]) && !IsWhitespace(s[|s| - 1]))
  }

  predicate StartsWith(s: string, prefix: string) {
    |prefix| <= |s| && s[..|prefix|] == prefix
  }

  /** Appending keeps a prefix. */
  lemma StartsWithConcat(a: string, b: string, prefix: string)
    requires StartsWith(a, prefix)
    ensures StartsWith(a + b, prefix)
  {
    assert (a + b)[..|prefix|] == a[..|prefix|];
  }

  /** The first position at or after `i` that is not whitespace, or `|s|`. */
  function SkipLeading(s: string, i: nat): (j: nat)
    requires i <= |s|
    ensures i <= j <= |s|
    ensures WhitespaceBetween(s, i, j)
    ensures j < |s| ==> !IsWhitespace(s[j])
    decreases |s| - i
  {
    if i < |s| && IsWhitespace(s[i]) then SkipLeading(s, i + 1) else i
  }

  /** The end of the non-whitespace run that finishes at or before `j`,
      never going below `lo`. */
  function SkipTrailing(s: string, lo: nat, j: nat): (e: nat)
    requires lo <= j <= |s|
    ensures lo <= e <= j
    ensures WhitespaceBetween(s, e, j)
    ensures e > lo ==> !IsWhitespace(s[e - 1])
    ensures lo < j && !IsWhitespace(s[lo]) ==> e > lo
    decreases j
  {
    if j > lo && IsWhitespace(s[j - 1]) then SkipTrailing(s, lo, j - 1) else j
  }

  /** `String.prototype.trim`: the infix of `s` left once whitespace is
      removed from both ends. */
  function Trim(s: string): (r: string)
    ensures NoEdgeWhitespace(r)
    ensures exists i :: 0 <= i <= |s| - |r| && r == s[i..i + |r|]
                        && WhitespaceBetween(s, 0, i) && WhitespaceBetween(s, i + |r|, |s|)
  {
    var a := SkipLeading(s, 0);
    var b := SkipTrailing(s, a, |s|);
    assert s[a..b] == s[a..a + |s[a..b]|];
    s[a..b]
  }

  /** Trimming yields the empty string exactly for all-whitespace input. */
  lemma TrimEmptyIffAllWhitespace(s: string)
    ensures Trim(s) == [] <==> AllWhitespace(s)
  {
    var a := SkipLeading(s, 0);
    var b := SkipTrailing(s, a, |s|);
    assert Trim(s) == s[a..b];
    if a < |s| {
      assert b > a;
      assert !IsWhitespace(s[a]);
    }
  }

  /** A string without edge whitespace is its own trim. */
  lemma TrimOfUntrimmed(s: string)
    requires NoEdgeWhitespace(s)
    ensures Trim(s) == s
  {
    assert SkipLeading(s, 0) == 0;
    assert SkipTrailing(s, 0, |s|) == |s|;
    assert s[0..|s|] == s;
  }

  /** Trimming twice is the same as trimming once. */
  lemma TrimIdempotent(s: string)
    ensures Trim(Trim(s)) == Trim(s)
  {
    TrimOfUntrimmed(Trim(s));
  }

  /** `s.indexOf(c, from)`: the first position at or after `from` holding
      `c`, with `|s|` standing for JavaScript's -1. */
  function IndexOf(s: string, c: char, from: nat): (i: nat)
    requires from <= |s|
    ensures from <= i <= |s|
    ensures c !in s[from..i]
    ensures i < |s| ==> s[i] == c
    decreases |s| - from
  {
    if from == |s| || s[from] == c then from
    else
      var i := IndexOf(s, c, from + 1);
      assert s[from..i] == [s[from]] + s[from + 1..i];
      i
  }

  /** The contract of `IndexOf` determines its result. */
  lemma {:induction false} IndexOfIs(s: string, c: char, from: nat, p: nat)
    requires from <= p <= |s|
    requires forall k :: from <= k < p ==> s[k] != c
    requires p < |s| ==> s[p] == c
    ensures IndexOf(s, c, from) == p
    decreases p - from
  {
    if from < p {
      IndexOfIs(s, c, from + 1, p);
    }
  }

  /** In `a + b`, where `a` holds no `c` and `b` is empty or starts with
      `c`, the first `c` is at `|a|` (or absent). */
  lemma IndexOfAfterPrefix(a: string, b: string, c: char)
    requires c !in a
    requires b == [] || b[0] == c
    ensures IndexOf(a + b, c, 0) == |a|
  {
    forall k | 0 <= k < |a| ensures (a + b)[k] != c {
      assert (a + b)[k] == a[k];
    }
    if b != [] {
      assert (a + b)[|a|] == b[0];
    }
    IndexOfIs(a + b, c, 0, |a|);
  }

  /** Searching a suffix of `s` from its start is searching `s` from
      where the suffix begins. */
  lemma IndexOfSuffix(s: string, c: char, k: nat)
    requires k <= |s|
    ensures IndexOf(s[k..], c, 0) == IndexOf(s, c, k) - k
  {
    var i := IndexOf(s, c, k);
    var t := s[k..];
    forall m | 0 <= m < i - k ensures t[m] != c {
      assert t[m] == s[k..i][m];
    }
    IndexOfIs(t, c, 0, i - k);
  }

  /** `Array.prototype.join` with a one-character separator. */
  function Join(parts: seq<string>, sep: char): string {
    if |parts| == 0 then []
    else if |parts| == 1 then parts[0]
    else parts[0] + [sep] + Join(parts[1..], sep)
  }

  /** `String.prototype.split` with a one-character separator: at least
      one piece, and no piece holds the separator. */
  function Split(s: string, sep: char): (parts: seq<string>)
    ensures |parts| >= 1
    ensures forall k :: 0 <= k < |parts| ==> sep !in parts[k]
    decreases |s|
  {
    var i := IndexOf(s, sep, 0);
    assert s[0..i] == s[..i];
    if i == |s| then [s] else [s[..i]] + Split(s[i + 1..], sep)
  }

  /** Joining the pieces of a split gives back the input. */
  lemma {:induction false} JoinSplit(s: string, sep: char)
    ensures Join(Split(s, sep), sep) == s
    decreases |s|
  {
    var i := IndexOf(s, sep, 0);
    if i < |s| {
      var rest := Split(s[i + 1..], sep);
      JoinSplit(s[i + 1..], sep);
      assert Split(s, sep) == [s[..i]] + rest;
      assert ([s[..i]] + rest)[1..] == rest;
      assert s == s[..i] + [sep] + s[i + 1..];
    }
  }

  /** Splitting undoes joining separator-free pieces. */
  lemma {:induction false} SplitJoin(parts: seq<string>, sep: char)
    requires |parts| >= 1
    requires forall k :: 0 <= k < |parts| ==> sep !in parts[k]
    ensures Split(Join(parts, sep), sep) == parts
    decreases |parts|
  {
    var s := Join(parts, sep);
    var head := parts[0];
    if |parts| == 1 {
      IndexOfAfterPrefix(head, [], sep);
      assert head + [] == head;
    } else {
      var tail := Join(parts[1..], sep);
      assert s == head + ([sep] + tail);
      IndexOfAfterPrefix(head, [sep] + tail, sep);
      assert s[..|head|] == head;
      assert s[|head| + 1..] == tail;
      SplitJoin(parts[1..], sep);
      assert parts == [head] + parts[1..];
    }
  }

  /** One step of splitting: the first piece ends at the first separator,
      and the remaining pieces split what follows it. */
  lemma SplitStep(s: string, sep: char)
    ensures var i := IndexOf(s, sep, 0);
            && (i == |s| ==> Split(s, sep) == [s])
            && (i < |s| ==> Split(s, sep) == [s[..i]] + Split(s[i + 1..], sep))
  {
  }

  /** The first piece of a split runs up to the first separator, and there
      is a second piece exactly when a separator occurs. */
  lemma SplitHead(s: string, sep: char)
    ensures var i := IndexOf(s, sep, 0);
            && Split(s, sep)[0] == s[..i]
            && (|Split(s, sep)| >= 2 <==> i < |s|)
  {
    SplitStep(s, sep);
    assert s[..|s|] == s;
  }

  /** The first two pieces of a split: up to the first separator, and from
      just after it up to the next separator or the end. */
  lemma SplitFirstPieces(s: string, sep: char)
    ensures var i := IndexOf(s, sep, 0);
            && (i == |s| ==> Split(s, sep) == [s])
            && (i < |s| ==> |Split(s, sep)| >= 2
                            && Split(s, sep)[1] == s[i + 1..IndexOf(s, sep, i + 1)])
  {
    var i := IndexOf(s, sep, 0);
    SplitStep(s, sep);
    if i < |s| {
      var t := s[i + 1..];
      SplitHead(t, sep);
      IndexOfSuffix(s, sep, i + 1);
      SliceOfSuffix(s, i + 1, IndexOf(t, sep, 0));
    }
  }

  /** The second piece of a split, with the two separator positions named. */
  lemma SplitSecondPiece(s: string, sep: char, i: nat, j: nat)
    requires i == IndexOf(s, sep, 0) < |s|
    requires j == IndexOf(s, sep, i + 1)
    ensures |Split(s, sep)| >= 2 && Split(s, sep)[1] == s[i + 1..j]
  {
    SplitFirstPieces(s, sep);
  }

  /** The two halves of a concatenation. */
  lemma ConcatPrefix(a: string, b: string)
    ensures (a + b)[..|a|] == a
  {
  }

  lemma ConcatSuffix(a: string, b: string)
    ensures (a + b)[|a|..] == b
  {
  }

  /** Concatenation regroups to the right. */
  lemma Regroup(a: string, b: string, c: string)
    ensures a + b + c == a + (b + c)
  {
  }

  /** A prefix of a suffix is a middle slice. */
  lemma SliceOfSuffix(s: string, k: nat, m: nat)
    requires k + m <= |s|
    ensures s[k..][..m] == s[k..k + m]
  {
  }

  /** The part of `a + (b + c)` after `a` and `b` is `c`. */
  lemma MiddleSlice(a: string, b: string, c: string)
    ensures (a + (b + c))[|a| + |b|..] == c
  {
    Regroup(a, b, c);
    ConcatSuffix(a + b, c);
  }
}
