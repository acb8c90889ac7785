/** The operations of Rust's `str` that the bot's text protocol is built on:
    `split` with a string pattern, `starts_with` (to which the anchored
    regular expressions of the message router reduce) and `trim_matches`
    with a single character. */
module Text {
  import opened Wrappers

  predicate StartsWith(s: string, prefix: string) {
    |prefix| <= |s| && s[..|prefix|] == prefix
  }

  /** `sep` occurs in `s` starting at position `j`. */
  predicate OccursAt(s: string, sep: string, j: nat) {
    j + |sep| <= |s| && s[j..j + |sep|] == sep
  }

  ghost predicate Contains(s: string, sep: string) {
    exists j: nat :: OccursAt(s, sep, j)
  }

  /** The leftmost occurrence of `sep` in `s` at or after position `i`. */
  function FindFrom(s: string, sep: string, i: nat): (r: Option<nat>)
    requires |sep| > 0
    ensures r.Some? ==> i <= r.value && OccursAt(s, sep, r.value)
    ensures r.Some? ==> forall j: nat :: i <= j < r.value ==> !OccursAt(s, sep, j)
    ensures r.None? ==> forall j: nat :: i <= j ==> !OccursAt(s, sep, j)
    decreases |s| - i
  {
    if i + |sep| > |s| then None
    else if s[i..i + |sep|] == sep then Some(i)
    else FindFrom(s, sep, i + 1)
  }

  /** Concatenation of `parts` with `sep` between neighbours: the inverse of `Split`. */
  function Join(parts: seq<string>, sep: string): string {
    if |parts| == 0 then ""
    else if |parts| == 1 then parts[0]
    else parts[0] + sep + Join(parts[1..], sep)
  }

  /** `s.split(sep).collect::<Vec<&str>>()`: the pieces between
      non-overlapping occurrences of `sep`, found from left to right. */
  function Split(s: string, sep: string): (parts: seq<string>)
    requires |sep| > 0
    ensures |parts| >= 1
    ensures Join(parts, sep) == s
    ensures forall i :: 0 <= i < |parts| ==> !Contains(parts[i], sep)
    decreases |s|
  {
    match FindFrom(s, sep, 0)
    case None =>
      assert !Contains(s, sep);
      [s]
    case Some(k) =>
      var rest := Split(s[k + |sep|..], sep);
      assert s == s[..k] + sep + s[k + |sep|..];
      assert !Contains(s[..k], sep) by {
        forall j: nat ensures !OccursAt(s[..k], sep, j) {
          if j + |sep| <= k {
            assert s[..k][j..j + |sep|] == s[j..j + |sep|];
            assert !OccursAt(s, sep, j);
          }
        }
      }
      assert ([s[..k]] + rest)[1..] == rest;
      [s[..k]] + rest
  }

  /** `s.trim_start_matches(c)`. */
  function TrimStart(s: string, c: char): (r: string)
    ensures |r| <= |s| && r == s[|s| - |r|..]
    ensures forall j :: 0 <= j < |s| - |r| ==> s[j] == c
    ensures r == [] || r[0] != c
  {
    if |s| > 0 && s[0] == c then TrimStart(s[1..], c) else s
  }

  /** `s.trim_end_matches(c)`. */
  function TrimEnd(s: string, c: char): (r: string)
    ensures |r| <= |s| && r == s[..|r|]
    ensures forall j :: |r| <= j < |s| ==> s[j] == c
    ensures r == [] || r[|r| - 1] != c
  {
    if |s| > 0 && s[|s| - 1] == c then TrimEnd(s[..|s| - 1], c) else s
  }

  /** `s.trim_matches(c)`: every leading and every trailing `c` removed. */
  function TrimMatches(s: string, c: char): (r: string)
    ensures |r| <= |s|
    ensures r == [] || (r[0] != c && r[|r| - 1] != c)
  {
    TrimEnd(TrimStart(s, c), c)
  }

  // ---------------------------------------------------------------------
  // Lemmas about Split

  lemma SplitCount(s: string, sep: string)
    requires |sep| > 0
    ensures |Split(s, sep)| >= 2 <==> Contains(s, sep)
  {
    match FindFrom(s, sep, 0)
    case None =>
    case Some(k) =>
      assert OccursAt(s, sep, k);
  }

  lemma SplitWithout(s: string, sep: string)
    requires |sep| > 0
    requires !Contains(s, sep)
    ensures Split(s, sep) == [s]
  {
    SplitCount(s, sep);
  }

  /** When the first occurrence of `sep` in `p + sep + rest` is the one after `p`,
      `p` is the first piece and the rest is split on its own. */
  lemma SplitAfter(p: string, sep: string, rest: string)
    requires |sep| > 0
    requires forall j: nat :: j < |p| ==> !OccursAt(p + sep + rest, sep, j)
    ensures Split(p + sep + rest, sep) == [p] + Split(rest, sep)
  {
    var s := p + sep + rest;
    assert s[|p|..|p| + |sep|] == sep;
    assert OccursAt(s, sep, |p|);
    assert FindFrom(s, sep, 0) == Some(|p|);
    assert s[..|p|] == p;
    assert s[|p| + |sep|..] == rest;
  }

  /** A piece free of the one-character separator ends at the first separator. */
  lemma SplitAfterLine(p: string, c: char, rest: string)
    requires c !in p
    ensures Split(p + [c] + rest, [c]) == [p] + Split(rest, [c])
  {
    var s := p + [c] + rest;
    forall j: nat | j < |p|
      ensures !OccursAt(s, [c], j)
    {
      assert s[j..j + 1] == [p[j]];
    }
    SplitAfter(p, [c], rest);
  }

  lemma SplitWithoutChar(s: string, c: char)
    requires c !in s
    ensures Split(s, [c]) == [s]
  {
    forall j: nat | j < |s|
      ensures !OccursAt(s, [c], j)
    {
      assert s[j..j + 1] == [s[j]];
    }
    SplitWithout(s, [c]);
  }

  /** Round trip: splitting a join on a one-character separator that no part
      contains gives the parts back. */
  lemma {:induction false} SplitOfJoin(parts: seq<string>, c: char)
    requires |parts| >= 1
    requires forall i :: 0 <= i < |parts| ==> c !in parts[i]
    ensures Split(Join(parts, [c]), [c]) == parts
  {
    if |parts| == 1 {
      SplitWithoutChar(parts[0], c);
    } else {
      SplitOfJoin(parts[1..], c);
      SplitAfterLine(parts[0], c, Join(parts[1..], [c]));
    }
  }

  /** `": "` cannot overlap itself, so when `a` holds no `": "` neither does
      any position of `a + ": " + b` before the separator. */
  lemma NoEarlyColonSpace(a: string, b: string)
    requires !Contains(a, ": ")
    ensures forall j: nat :: j < |a| ==> !OccursAt(a + ": " + b, ": ", j)
  {
    var s := a + ": " + b;
    forall j: nat | j < |a|
      ensures !OccursAt(s, ": ", j)
    {
      if j + 2 <= |a| {
        assert !OccursAt(a, ": ", j);
        assert a[j..j + 2] == s[j..j + 2];
      } else {
        assert s[j + 1] == ':';
        assert s[j..j + 2][1] == ':';
      }
    }
  }

  /** A label without `':'` holds no `": "`. */
  lemma ColonFreeLabel(tag: string)
    requires ':' !in tag
    ensures !Contains(tag, ": ")
  {
    forall j: nat | j + 2 <= |tag|
      ensures !OccursAt(tag, ": ", j)
    {
      assert tag[j..j + 2][0] == tag[j];
    }
  }

  // ---------------------------------------------------------------------
  // Lemmas about trim_matches

  lemma {:induction false} TrimStartOfPadded(pre: string, rest: string, c: char)
    requires forall j :: 0 <= j < |pre| ==> pre[j] == c
    requires rest == [] || rest[0] != c
    ensures TrimStart(pre + rest, c) == rest
  {
    if pre == [] {
      assert pre + rest == rest;
    } else {
      assert (pre + rest)[1..] == pre[1..] + rest;
      TrimStartOfPadded(pre[1..], rest, c);
    }
  }

  lemma {:induction false} TrimEndOfPadded(rest: string, post: string, c: char)
    requires forall j :: 0 <= j < |post| ==> post[j] == c
    requires rest == [] || rest[|rest| - 1] != c
    ensures TrimEnd(rest + post, c) == rest
  {
    if post == [] {
      assert rest + post == rest;
    } else {
      var s := rest + post;
      assert s[|s| - 1] == post[|post| - 1];
      assert s[..|s| - 1] == rest + post[..|post| - 1];
      TrimEndOfPadded(rest, post[..|post| - 1], c);
    }
  }

  /** `trim_matches` removes exactly the padding around a core that neither
      starts nor ends with `c`. */
  lemma TrimMatchesOfPadded(pre: string, core: string, post: string, c: char)
    requires forall j :: 0 <= j < |pre| ==> pre[j] == c
    requires forall j :: 0 <= j < |post| ==> post[j] == c
    requires core == [] || (core[0] != c && core[|core| - 1] != c)
    ensures TrimMatches(pre + core + post, c) == core
  {
    if core == [] {
      assert pre + core + post == pre + post;
      var all := pre + post;
      forall j | 0 <= j < |all| ensures all[j] == c {
        if j >= |pre| { assert all[j] == post[j - |pre|]; }
      }
      TrimStartOfPadded(all, [], c);
      assert all + [] == all;
    } else {
      assert pre + core + post == pre + (core + post);
      TrimStartOfPadded(pre, core + post, c);
      TrimEndOfPadded(core, post, c);
    }
  }
}
