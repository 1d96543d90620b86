/** The parts of `java.lang.String` the modelled code relies on, with Java's
    exact edge cases: `trim`, `startsWith`, `split(" ")`, `contains` and
    `replaceAll("\\s+", "-")`. */
module JavaStrings {

  // ---------------------------------------------------------------- trim

  /** `String.trim` removes every leading and trailing character whose code is at most U+0020. */
  predicate Trimmable(c: char) { c <= ' ' }

  predicate AllTrimmable(s: string) { forall k :: 0 <= k < |s| ==> Trimmable(s[k]) }

  /** The first index at or after `i` that holds a non-trimmable character, or `|s|`. */
  function SkipLeading(s: string, i: nat): (j: nat)
    requires i <= |s|
    ensures i <= j <= |s|
    ensures forall k :: i <= k < j ==> Trimmable(s[k])
    ensures j < |s| ==> !Trimmable(s[j])
    decreases |s| - i
  {
    if i < |s| && Trimmable(s[i]) then SkipLeading(s, i + 1) else i
  }

  /** The end of `s[lo..j]` once its trailing trimmable characters are dropped. */
  function SkipTrailing(s: string, lo: nat, j: nat): (i: nat)
    requires lo <= j <= |s|
    ensures lo <= i <= j
    ensures forall k :: i <= k < j ==> Trimmable(s[k])
    ensures lo < i ==> !Trimmable(s[i - 1])
    decreases j - lo
  {
    if lo < j && Trimmable(s[j - 1]) then SkipTrailing(s, lo, j - 1) else j
  }

  lemma PrefixTrimmable(s: string, n: nat)
    requires n <= |s| && forall k :: 0 <= k < n ==> Trimmable(s[k])
    ensures AllTrimmable(s[..n])
  {
  }

  lemma SuffixTrimmable(s: string, n: nat)
    requires n <= |s| && forall k :: n <= k < |s| ==> Trimmable(s[k])
    ensures AllTrimmable(s[n..])
  {
  }

  /** `String.trim()`. */
  function Trim(s: string): (r: string)
    ensures exists i, j :: 0 <= i <= j <= |s| && r == s[i..j] && AllTrimmable(s[..i]) && AllTrimmable(s[j..])
    ensures r != [] ==> !Trimmable(r[0]) && !Trimmable(r[|r| - 1])
  {
    var i := SkipLeading(s, 0);
    var j := SkipTrailing(s, i, |s|);
    PrefixTrimmable(s, i);
    SuffixTrimmable(s, j);
    s[i..j]
  }

  /** The trimmed string is fixed by its cut points: everything before `i` and
      from `j` on is trimmable, and `s[i..j]` is empty or starts and ends with a
      character that is not. */
  lemma TrimAt(s: string, i: nat, j: nat)
    requires i <= j <= |s|
    requires forall k :: 0 <= k < i ==> Trimmable(s[k])
    requires forall k :: j <= k < |s| ==> Trimmable(s[k])
    requires i < j ==> !Trimmable(s[i]) && !Trimmable(s[j - 1])
    ensures Trim(s) == s[i..j]
  {
    var b := SkipLeading(s, 0);
    var e := SkipTrailing(s, b, |s|);
  }

  /** Trimming a string that has no trimmable character at either end changes nothing. */
  lemma TrimOfTrimmed(s: string)
    requires s != [] ==> !Trimmable(s[0]) && !Trimmable(s[|s| - 1])
    ensures Trim(s) == s
  {
    TrimAt(s, 0, |s|);
  }

  /** `trim` is idempotent. */
  lemma TrimIdempotent(s: string)
    ensures Trim(Trim(s)) == Trim(s)
  {
    TrimOfTrimmed(Trim(s));
  }

  /** Trimming yields the empty string exactly for strings made only of trimmable characters. */
  lemma TrimEmpty(s: string)
    ensures Trim(s) == [] <==> AllTrimmable(s)
  {
    var i := SkipLeading(s, 0);
    var j := SkipTrailing(s, i, |s|);
  }

  /** The trimmed string in terms of the two cut points. */
  lemma TrimCuts(s: string) returns (i: nat, j: nat)
    ensures i <= j <= |s| && Trim(s) == s[i..j]
    ensures forall k :: 0 <= k < i ==> Trimmable(s[k])
    ensures forall k :: j <= k < |s| ==> Trimmable(s[k])
    ensures i < j ==> !Trimmable(s[i]) && !Trimmable(s[j - 1])
  {
    i := SkipLeading(s, 0);
    j := SkipTrailing(s, i, |s|);
  }

  /** Whitespace padding around a string never reaches the trimmed result. */
  lemma TrimPadding(pre: string, s: string, post: string)
    requires AllTrimmable(pre) && AllTrimmable(post)
    ensures Trim(pre + s + post) == Trim(s)
  {
    var i, j := TrimCuts(s);
    PaddedTrimAt(pre + s + post, pre, s, post, i, j);
  }

  /** The cut points of `s` shifted by `|pre|` are those of the padded string. */
  lemma PaddedTrimAt(w: string, pre: string, s: string, post: string, i: nat, j: nat)
    requires w == pre + s + post && AllTrimmable(pre) && AllTrimmable(post)
    requires i <= j <= |s|
    requires forall k :: 0 <= k < i ==> Trimmable(s[k])
    requires forall k :: j <= k < |s| ==> Trimmable(s[k])
    requires i < j ==> !Trimmable(s[i]) && !Trimmable(s[j - 1])
    ensures Trim(w) == s[i..j]
  {
    PaddedLeading(w, pre, s, post, i);
    PaddedTrailing(w, pre, s, post, j);
    PaddedSlice(w, pre, s, post, i, j);
    TrimAt(w, |pre| + i, |pre| + j);
  }

  /** Inside the padded string `w`, `s` starts at `|pre|`. */
  lemma PaddedSlice(w: string, pre: string, s: string, post: string, i: nat, j: nat)
    requires w == pre + s + post && i <= j <= |s|
    ensures |pre| + j <= |w| && w[|pre| + i..|pre| + j] == s[i..j]
    ensures i < j ==> w[|pre| + i] == s[i] && w[|pre| + j - 1] == s[j - 1]
  {
  }

  lemma PaddedLeading(w: string, pre: string, s: string, post: string, i: nat)
    requires w == pre + s + post
    requires AllTrimmable(pre) && i <= |s| && forall k :: 0 <= k < i ==> Trimmable(s[k])
    ensures forall k :: 0 <= k < |pre| + i ==> Trimmable(w[k])
  {
    forall k | 0 <= k < |pre| + i ensures Trimmable(w[k]) {
      if k >= |pre| { assert w[k] == s[k - |pre|]; } else { assert w[k] == pre[k]; }
    }
  }

  lemma PaddedTrailing(w: string, pre: string, s: string, post: string, j: nat)
    requires w == pre + s + post
    requires AllTrimmable(post) && j <= |s| && forall k :: j <= k < |s| ==> Trimmable(s[k])
    ensures forall k :: |pre| + j <= k < |w| ==> Trimmable(w[k])
  {
    forall k | |pre| + j <= k < |w| ensures Trimmable(w[k]) {
      if k < |pre| + |s| { assert w[k] == s[k - |pre|]; } else { assert w[k] == post[k - |pre| - |s|]; }
    }
  }

  // ---------------------------------------------------------- startsWith

  /** `String.startsWith(prefix)`: case-sensitive. */
  predicate StartsWith(s: string, prefix: string) {
    |prefix| <= |s| && s[..|prefix|] == prefix
  }

  // ---------------------------------------------------------- contains

  /** `String.contains(t)`. */
  predicate Contains(s: string, t: string) {
    exists i :: 0 <= i <= |s| - |t| && OccursAt(s, t, i)
  }

  predicate OccursAt(s: string, t: string, i: int) {
    0 <= i <= |s| - |t| && s[i..i + |t|] == t
  }

  // ------------------------------------------------------------- split(" ")

  /** The pieces between single spaces, empty pieces included. */
  function Pieces(s: string): (r: seq<string>)
    ensures |r| >= 1
    ensures ' ' !in s ==> r == [s]
  {
    if s == [] then [""]
    else
      var rest := Pieces(s[1..]);
      assert s == [s[0]] + s[1..];
      assert ' ' !in s ==> ' ' !in s[1..];
      if s[0] == ' ' then [""] + rest else [[s[0]] + rest[0]] + rest[1..]
  }

  /** Java's `split` with limit 0 drops all trailing empty strings. */
  function DropTrailingEmpty(r: seq<string>): (q: seq<string>)
    ensures |q| <= |r| && q == r[..|q|]
    ensures q != [] ==> q[|q| - 1] != ""
    ensures forall k :: |q| <= k < |r| ==> r[k] == ""
  {
    if r != [] && r[|r| - 1] == "" then DropTrailingEmpty(r[..|r| - 1]) else r
  }

  /** `String.split(" ")`: when there is no space the string itself is the only
      element; otherwise the pieces, less trailing empty ones. */
  function SplitOnSpace(s: string): seq<string> {
    if ' ' !in s then [s] else DropTrailingEmpty(Pieces(s))
  }

  /** The characters of `s` before its first space. */
  function FirstPiece(s: string): (r: string)
    ensures ' ' !in r && |r| <= |s| && r == s[..|r|]
    ensures |r| < |s| ==> s[|r|] == ' '
  {
    if s == [] || s[0] == ' ' then [] else [s[0]] + FirstPiece(s[1..])
  }

  /** A string without spaces is its own first piece. */
  lemma {:induction false} FirstPieceWithoutSpace(s: string)
    requires ' ' !in s
    ensures FirstPiece(s) == s
  {
    if s != [] {
      assert ' ' !in s[1..];
      FirstPieceWithoutSpace(s[1..]);
    }
  }

  lemma {:induction false} PiecesHead(s: string)
    ensures Pieces(s)[0] == FirstPiece(s)
  {
    if s != [] && s[0] != ' ' {
      PiecesHead(s[1..]);
    }
  }

  /** A word without spaces followed by a space is the first piece; the rest is split independently. */
  lemma {:induction false} PiecesAfterWord(w: string, t: string)
    requires ' ' !in w
    ensures Pieces(w + [' '] + t) == [w] + Pieces(t)
  {
    if w == [] {
      assert w + [' '] + t == [' '] + t;
    } else {
      var s := w + [' '] + t;
      assert s[0] == w[0] && w[0] != ' ';
      assert s[1..] == w[1..] + [' '] + t;
      PiecesAfterWord(w[1..], t);
      assert w == [w[0]] + w[1..];
    }
  }

  /** Some piece is non-empty exactly when the string holds a character other than a space. */
  lemma {:induction false} PiecesAllEmpty(s: string)
    ensures (forall k :: 0 <= k < |Pieces(s)| ==> Pieces(s)[k] == "") <==> (forall k :: 0 <= k < |s| ==> s[k] == ' ')
  {
    if s != [] {
      PiecesAllEmpty(s[1..]);
      var rest := Pieces(s[1..]);
      if s[0] == ' ' {
        assert Pieces(s) == [""] + rest;
        if forall k :: 0 <= k < |s[1..]| ==> s[1..][k] == ' ' {
          forall k | 0 <= k < |s| ensures s[k] == ' ' {
            if k > 0 { assert s[k] == s[1..][k - 1]; }
          }
        }
        forall k | 0 <= k < |rest| ensures Pieces(s)[k + 1] == rest[k] { }
      } else {
        assert Pieces(s)[0] != "";
      }
    }
  }

  /** The second element of `("Bearer " + t).split(" ")`: it exists exactly when `t`
      holds a non-space character, and then it is `t` up to its first space. */
  lemma SplitAfterWord(w: string, t: string)
    requires w != "" && ' ' !in w
    ensures var parts := SplitOnSpace(w + [' '] + t);
      && (|parts| >= 2 <==> exists k :: 0 <= k < |t| && t[k] != ' ')
      && (|parts| >= 2 ==> parts[0] == w && parts[1] == FirstPiece(t))
  {
    var s := w + [' '] + t;
    assert s[|w|] == ' ';
    PiecesAfterWord(w, t);
    var all := Pieces(s);
    var rest := Pieces(t);
    assert all == [w] + rest;
    var parts := DropTrailingEmpty(all);
    assert SplitOnSpace(s) == parts;
    PiecesAllEmpty(t);
    if exists k :: 0 <= k < |t| && t[k] != ' ' {
      var k :| 0 <= k < |rest| && rest[k] != "";
      assert all[k + 1] == rest[k];
      assert |parts| >= k + 2;
      assert parts[1] == rest[0];
      PiecesHead(t);
    } else {
      assert forall k :: 1 <= k < |all| ==> all[k] == "";
    }
  }

  // ------------------------------------------------- replaceAll("\\s+", "-")

  /** The regular-expression class `\s`: space, tab, newline, vertical tab, form feed, carriage return. */
  predicate IsRegexSpace(c: char) {
    c == ' ' || c == '\t' || c == '\n' || c == '\U{B}' || c == '\U{C}' || c == '\r'
  }

  predicate NoRegexSpace(s: string) { forall k :: 0 <= k < |s| ==> !IsRegexSpace(s[k]) }

  predicate AllRegexSpace(s: string) { forall k :: 0 <= k < |s| ==> IsRegexSpace(s[k]) }

  /** Drops the leading run of `\s` characters. */
  function DropSpaceRun(s: string): (r: string)
    ensures |r| <= |s| && r == s[|s| - |r|..]
    ensures r != [] ==> !IsRegexSpace(r[0])
  {
    if s != [] && IsRegexSpace(s[0]) then DropSpaceRun(s[1..]) else s
  }

  /** `s.replaceAll("\\s+", "-")`: each maximal run of `\s` becomes one hyphen. */
  function ReplaceSpaceRuns(s: string): (r: string)
    ensures NoRegexSpace(r)
    ensures |r| <= |s|
    decreases |s|
  {
    if s == [] then []
    else if IsRegexSpace(s[0]) then "-" + ReplaceSpaceRuns(DropSpaceRun(s[1..]))
    else [s[0]] + ReplaceSpaceRuns(s[1..])
  }

  /** A name without whitespace is left as it is. */
  lemma {:induction false} ReplaceSpaceRunsIdentity(s: string)
    requires NoRegexSpace(s)
    ensures ReplaceSpaceRuns(s) == s
  {
    if s != [] {
      ReplaceSpaceRunsIdentity(s[1..]);
    }
  }

  /** A run of `\s` followed by a non-space (or nothing) is dropped whole. */
  lemma {:induction false} DropSpaceRunOfRun(sp: string, b: string)
    requires AllRegexSpace(sp)
    requires b == [] || !IsRegexSpace(b[0])
    ensures DropSpaceRun(sp + b) == b
  {
    if sp != [] {
      assert (sp + b)[1..] == sp[1..] + b;
      DropSpaceRunOfRun(sp[1..], b);
    }
  }

  /** Dropping the leading run of a string that is not all `\s` stops inside it. */
  lemma {:induction false} DropSpaceRunAppend(x: string, t: string)
    requires !AllRegexSpace(x)
    ensures DropSpaceRun(x) != []
    ensures DropSpaceRun(x + t) == DropSpaceRun(x) + t
  {
    if IsRegexSpace(x[0]) {
      assert (x + t)[1..] == x[1..] + t;
      assert !AllRegexSpace(x[1..]) by {
        var k :| 0 <= k < |x| && !IsRegexSpace(x[k]);
        assert x[1..][k - 1] == x[k];
      }
      DropSpaceRunAppend(x[1..], t);
    }
  }

  /** Rewriting distributes over a concatenation whose left part does not end in
      `\s`, since no run of `\s` then spans the joint. */
  lemma {:induction false} ReplaceSpaceRunsAppend(a: string, t: string)
    requires a == [] || !IsRegexSpace(a[|a| - 1])
    ensures ReplaceSpaceRuns(a + t) == ReplaceSpaceRuns(a) + ReplaceSpaceRuns(t)
    decreases |a|
  {
    if a == [] {
      assert a + t == t;
    } else if !IsRegexSpace(a[0]) {
      assert (a + t)[0] == a[0];
      assert (a + t)[1..] == a[1..] + t;
      ReplaceSpaceRunsAppend(a[1..], t);
    } else {
      var rest := a[1..];
      assert rest[|rest| - 1] == a[|a| - 1];
      assert (a + t)[0] == a[0];
      assert (a + t)[1..] == rest + t;
      DropSpaceRunAppend(rest, t);
      var d := DropSpaceRun(rest);
      assert d[|d| - 1] == a[|a| - 1];
      ReplaceSpaceRunsAppend(d, t);
    }
  }

  /** `replaceAll("\\s+", "-")` turns each maximal run of `\s` into exactly one
      hyphen and keeps the text on either side of it. */
  lemma {:induction false} ReplaceSpaceRunsJoin(a: string, sp: string, b: string)
    requires a == [] || !IsRegexSpace(a[|a| - 1])
    requires sp != [] && AllRegexSpace(sp)
    requires b == [] || !IsRegexSpace(b[0])
    ensures ReplaceSpaceRuns(a + sp + b) == ReplaceSpaceRuns(a) + "-" + ReplaceSpaceRuns(b)
  {
    var w := sp + b;
    assert a + sp + b == a + w;
    ReplaceSpaceRunsAppend(a, w);
    RunThenText(sp, b);
  }

  /** A leading run of `\s` becomes one hyphen. */
  lemma {:induction false} RunThenText(sp: string, b: string)
    requires sp != [] && AllRegexSpace(sp)
    requires b == [] || !IsRegexSpace(b[0])
    ensures ReplaceSpaceRuns(sp + b) == "-" + ReplaceSpaceRuns(b)
  {
    var w := sp + b;
    assert w[0] == sp[0];
    assert w[1..] == sp[1..] + b;
    DropSpaceRunOfRun(sp[1..], b);
  }
}
