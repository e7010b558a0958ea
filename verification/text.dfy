/** Character-level helpers on strings (`seq<char>`): searching for a
    character, and the comma-splitting that configuration values go through. */
module Text {
  import opened Wrappers

  /** Index of the last occurrence of `c` in `s` (Java's `lastIndexOf`),
      `None` when `c` does not occur. */
  function LastIndexOf(s: string, c: char): (r: Option<nat>)
    ensures r.None? <==> c !in s
    ensures r.Some? ==> r.value < |s| && s[r.value] == c && c !in s[r.value + 1..]
  {
    if |s| == 0 then None
    else if s[|s| - 1] == c then Some(|s| - 1)
    else
      var r := LastIndexOf(s[..|s| - 1], c);
      assert s[..|s| - 1] + [s[|s| - 1]] == s;
      r
  }

  /** Any position of `c` after which `c` no longer occurs is the one
      `LastIndexOf` finds. */
  lemma LastIndexOfUnique(s: string, c: char, i: nat)
    requires i < |s| && s[i] == c && c !in s[i + 1..]
    ensures LastIndexOf(s, c) == Some(i)
  {
  }

  /** Index of the first occurrence of `c` in `s` (Java's `indexOf`). */
  function IndexOf(s: string, c: char): (r: nat)
    requires c in s
    ensures r < |s| && s[r] == c
  {
    if s[0] == c then 0
    else
      assert c in s[1..] by { assert s == [s[0]] + s[1..]; }
      IndexOf(s[1..], c) + 1
  }

  /** `IndexOf` finds the first occurrence: `c` does not occur before it. */
  lemma {:induction false} IndexOfFirst(s: string, c: char)
    requires c in s
    ensures c !in s[..IndexOf(s, c)]
  {
    if s[0] != c {
      assert c in s[1..] by { assert s == [s[0]] + s[1..]; }
      IndexOfFirst(s[1..], c);
      var r := IndexOf(s[1..], c);
      assert s[..r + 1] == [s[0]] + s[1..][..r];
    }
  }

  /** Every piece of `s` between occurrences of `sep`, empty pieces included
      (Java's `split` with a negative limit). */
  function SplitAll(s: string, sep: char): (r: seq<string>)
    ensures |r| >= 1
    decreases |s|
  {
    if sep !in s then [s]
    else
      var i := IndexOf(s, sep);
      [s[..i]] + SplitAll(s[i + 1..], sep)
  }

  /** No piece holds the separator. */
  lemma {:induction false} SplitAllPieces(s: string, sep: char)
    ensures forall x :: x in SplitAll(s, sep) ==> sep !in x
    decreases |s|
  {
    if sep in s {
      var i := IndexOf(s, sep);
      IndexOfFirst(s, sep);
      SplitAllPieces(s[i + 1..], sep);
    }
  }

  /** The pieces `xs` glued back together with `sep` between neighbours. */
  function Join(xs: seq<string>, sep: char): string
  {
    if |xs| == 0 then ""
    else if |xs| == 1 then xs[0]
    else xs[0] + [sep] + Join(xs[1..], sep)
  }

  /** Joining a head in front of a non-empty tail. */
  lemma JoinCons(x: string, xs: seq<string>, sep: char)
    requires |xs| > 0
    ensures Join([x] + xs, sep) == x + [sep] + Join(xs, sep)
  {
    assert ([x] + xs)[1..] == xs;
  }

  /** Splitting loses nothing: joining the pieces gives the input back. */
  lemma {:induction false} JoinSplitAll(s: string, sep: char)
    ensures Join(SplitAll(s, sep), sep) == s
    decreases |s|
  {
    if sep in s {
      var i := IndexOf(s, sep);
      var rest := SplitAll(s[i + 1..], sep);
      JoinSplitAll(s[i + 1..], sep);
      JoinCons(s[..i], rest, sep);
      assert s == s[..i] + [sep] + s[i + 1..];
    }
  }

  /** Splitting inverts joining when no piece contains the separator. */
  lemma {:induction false} SplitAllJoin(xs: seq<string>, sep: char)
    requires |xs| >= 1
    requires forall x :: x in xs ==> sep !in x
    ensures SplitAll(Join(xs, sep), sep) == xs
  {
    if |xs| > 1 {
      SplitAllJoin(xs[1..], sep);
      SplitPrefix(xs[0], Join(xs[1..], sep), sep);
      assert [xs[0]] + xs[1..] == xs;
    }
  }

  /** Splitting a separator-free head followed by `sep` and a tail. */
  lemma SplitPrefix(head: string, tail: string, sep: char)
    requires sep !in head
    ensures SplitAll(head + [sep] + tail, sep) == [head] + SplitAll(tail, sep)
  {
    var s := head + [sep] + tail;
    assert s[|head|] == sep;
    IndexOfFirst(s, sep);
    assert s[..|head|] == head;
    assert s[|head| + 1..] == tail;
  }

  /** `xs` without its trailing empty strings. */
  function DropTrailingEmpty(xs: seq<string>): (r: seq<string>)
    ensures |r| <= |xs| && r == xs[..|r|]
    ensures |r| == 0 || r[|r| - 1] != ""
    ensures forall i :: |r| <= i < |xs| ==> xs[i] == ""
  {
    if |xs| > 0 && xs[|xs| - 1] == "" then DropTrailingEmpty(xs[..|xs| - 1]) else xs
  }

  /** Java's `String.split` on a one-character separator with the default
      limit: an input without the separator comes back whole (even when
      empty); otherwise the pieces come back with trailing empty ones dropped. */
  function JavaSplit(s: string, sep: char): seq<string>
  {
    if sep !in s then [s] else DropTrailingEmpty(SplitAll(s, sep))
  }

  /** Splitting inverts joining for at least two separator-free pieces of
      which the last is non-empty. */
  lemma JavaSplitJoin(xs: seq<string>, sep: char)
    requires |xs| >= 2 && xs[|xs| - 1] != ""
    requires forall x :: x in xs ==> sep !in x
    ensures JavaSplit(Join(xs, sep), sep) == xs
  {
    var s := Join(xs, sep);
    assert s[|xs[0]|] == sep;
    SplitAllJoin(xs, sep);
  }

  /** What `JavaSplit` returns, stated against the full list of pieces: a
      prefix of it, missing only empty pieces, ending in a non-empty piece
      unless the input held no separator at all. */
  lemma JavaSplitPieces(s: string, sep: char)
    ensures var r, all := JavaSplit(s, sep), SplitAll(s, sep);
      && |r| <= |all| && r == all[..|r|]
      && (forall i :: |r| <= i < |all| ==> all[i] == "")
      && (sep in s ==> |r| == 0 || r[|r| - 1] != "")
      && (sep !in s ==> r == [s])
      && (forall x :: x in r ==> sep !in x)
  {
    SplitAllPieces(s, sep);
  }
}
