/** The PHP string built-ins the script relies on, for one-character
    separators: `empty()` on strings, `explode`/`implode`, `end()` of an
    exploded array, `trim` with a character list, and a first-index search. */
module PhpStrings {

  /** PHP's `empty()` on a string value: true exactly for "" and "0". */
  predicate PhpEmpty(s: string) {
    s == "" || s == "0"
  }

  /** Index of the first `ch` in `s`, or `|s|` when there is none. */
  function FirstIndexOf(s: string, ch: char): (i: nat)
    ensures i <= |s|
    ensures i < |s| ==> s[i] == ch
    ensures forall k :: 0 <= k < i ==> s[k] != ch
    decreases |s|
  {
    if |s| == 0 then 0
    else if s[0] == ch then 0
    else 1 + FirstIndexOf(s[1..], ch)
  }

  /** The first occurrence is the one position with `ch` and none before it. */
  lemma FirstIndexOfAt(s: string, ch: char, i: nat)
    requires i < |s| && s[i] == ch
    requires forall k :: 0 <= k < i ==> s[k] != ch
    ensures FirstIndexOf(s, ch) == i
  {
  }

  /** No occurrence at all gives `|s|`. */
  lemma FirstIndexOfAbsent(s: string, ch: char)
    requires ch !in s
    ensures FirstIndexOf(s, ch) == |s|
  {
  }

  /** A string is its prefix, the character at `i` and its suffix. */
  lemma SplitAtIndex(s: string, i: nat)
    requires i < |s|
    ensures s == s[..i] + [s[i]] + s[i + 1..]
  {
  }

  /** PHP's `explode(sep, s)`: the pieces of `s` between occurrences of `sep`. */
  function Explode(s: string, sep: char): (parts: seq<string>)
    ensures |parts| >= 1
    decreases |s|
  {
    if |s| == 0 then [""]
    else
      var rest := Explode(s[1..], sep);
      if s[0] == sep then [""] + rest
      else [[s[0]] + rest[0]] + rest[1..]
  }

  /** PHP's `implode(sep, parts)`, the inverse of `Explode`. */
  function Implode(sep: char, parts: seq<string>): string
    decreases |parts|
  {
    if |parts| == 0 then ""
    else if |parts| == 1 then parts[0]
    else parts[0] + [sep] + Implode(sep, parts[1..])
  }

  /** Exploding and imploding again gives back the input, and no piece
      contains the separator. */
  lemma {:induction false} ExplodeImplode(s: string, sep: char)
    ensures Implode(sep, Explode(s, sep)) == s
    ensures forall p :: p in Explode(s, sep) ==> sep !in p
    decreases |s|
  {
    if |s| > 0 {
      var rest := Explode(s[1..], sep);
      ExplodeImplode(s[1..], sep);
      assert s == [s[0]] + s[1..];
      if s[0] == sep {
        assert Explode(s, sep) == [""] + rest;
        assert ([""] + rest)[1..] == rest;
      } else {
        var parts := Explode(s, sep);
        assert parts == [[s[0]] + rest[0]] + rest[1..];
        assert rest[0] in rest;
        if |rest| > 1 {
          assert parts[1..] == rest[1..];
          assert Implode(sep, rest) == rest[0] + [sep] + Implode(sep, rest[1..]);
        }
        forall p | p in parts ensures sep !in p {
          if p != parts[0] {
            assert p in rest;
          }
        }
      }
    }
  }

  /** `end(explode(sep, s))`: the last piece. */
  function LastPart(s: string, sep: char): string {
    var parts := Explode(s, sep);
    parts[|parts| - 1]
  }

  /** The last piece of `explode` is the longest suffix of `s` free of `sep`:
      either all of `s`, or what follows its final `sep`. */
  lemma {:induction false} LastPartSpec(s: string, sep: char)
    ensures var l := LastPart(s, sep);
      sep !in l && |l| <= |s| && l == s[|s| - |l|..] &&
      (|Explode(s, sep)| == 1 ==> l == s) &&
      (|Explode(s, sep)| > 1 ==> |l| < |s| && s[|s| - |l| - 1] == sep)
    decreases |s|
  {
    if |s| > 0 {
      var rest := Explode(s[1..], sep);
      var t := s[1..];
      LastPartSpec(t, sep);
      var l' := rest[|rest| - 1];
      assert s == [s[0]] + t;
      if s[0] == sep {
        var parts := [""] + rest;
        assert Explode(s, sep) == parts;
        assert parts[|parts| - 1] == l';
      } else {
        var parts := [[s[0]] + rest[0]] + rest[1..];
        assert Explode(s, sep) == parts;
        if |rest| == 1 {
          assert parts[|parts| - 1] == [s[0]] + t;
        } else {
          assert parts[|parts| - 1] == l';
        }
      }
    }
  }

  /** A separator in `s` lies before any separator-free tail `x` of `s`. */
  lemma SepBeforeTail(s: string, x: string, k: nat, sep: char)
    requires |x| <= |s| && s[|s| - |x|..] == x && sep !in x
    requires k < |s| && s[k] == sep
    ensures k < |s| - |x|
  {
    assert forall j :: |s| - |x| <= j < |s| ==> s[j] == x[j - (|s| - |x|)];
    assert forall j :: 0 <= j < |x| ==> x[j] in x;
  }

  /** Two splittings of one string at a final separator agree. */
  lemma SplitAtLastSep(a: string, x: string, b: string, y: string, sep: char)
    requires a + [sep] + x == b + [sep] + y
    requires sep !in x && sep !in y
    ensures x == y && a == b
  {
    var s := a + [sep] + x;
    assert s[|s| - |x|..] == x && s[|a|] == sep;
    assert s[|s| - |y|..] == y && s[|b|] == sep;
    SepBeforeTail(s, x, |b|, sep);
    SepBeforeTail(s, y, |a|, sep);
    assert x == s[|s| - |x|..] == y;
    assert a == s[..|a|] == b;
  }

  /** The last piece of `p + [sep] + x`, with no `sep` in `x`, is `x`. */
  lemma LastPartAfterSep(p: string, x: string, sep: char)
    requires sep !in x
    ensures LastPart(p + [sep] + x, sep) == x
  {
    var s := p + [sep] + x;
    var l := LastPart(s, sep);
    LastPartSpec(s, sep);
    if |Explode(s, sep)| > 1 {
      assert s == s[..|s| - |l| - 1] + [sep] + l;
      SplitAtLastSep(s[..|s| - |l| - 1], l, p, x, sep);
    }
  }

  /** PHP's `ltrim(s, c)` for a one-character list. */
  function TrimLeft(s: string, c: char): (r: string)
    ensures |r| <= |s| && r == s[|s| - |r|..]
    ensures |r| > 0 ==> r[0] != c
    ensures forall k :: 0 <= k < |s| - |r| ==> s[k] == c
    decreases |s|
  {
    if |s| > 0 && s[0] == c then TrimLeft(s[1..], c) else s
  }

  /** PHP's `rtrim(s, c)` for a one-character list. */
  function TrimRight(s: string, c: char): (r: string)
    ensures |r| <= |s| && r == s[..|r|]
    ensures |r| > 0 ==> r[|r| - 1] != c
    ensures forall k :: |r| <= k < |s| ==> s[k] == c
    decreases |s|
  {
    if |s| > 0 && s[|s| - 1] == c then TrimRight(s[..|s| - 1], c) else s
  }

  /** PHP's `trim(s, c)`: strips `c` from both ends. The result is the
      infix of `s` left after removing only `c`s from its front and its back. */
  function Trim(s: string, c: char): (r: string)
    ensures |r| <= |s|
    ensures |r| > 0 ==> r[0] != c && r[|r| - 1] != c
    ensures exists i :: TrimmedAt(s, c, i, r)
  {
    var l := TrimLeft(s, c);
    var r := TrimRight(l, c);
    PrefixOfSuffix(s, l, r, c);
    assert TrimmedAt(s, c, |s| - |l|, r);
    r
  }

  /** `r` sits in `s` at offset `i`, with only `c`s before and after it. */
  ghost predicate TrimmedAt(s: string, c: char, i: int, r: string)
  {
    0 <= i && i + |r| <= |s| && r == s[i..i + |r|] &&
    (forall k :: 0 <= k < i ==> s[k] == c) &&
    (forall k :: i + |r| <= k < |s| ==> s[k] == c)
  }

  /** A prefix `r` of a suffix `l` of `s`, where `s` has only `c`s before `l`
      and `l` has only `c`s after `r`, is an infix of `s` with only `c`s around it. */
  lemma PrefixOfSuffix(s: string, l: string, r: string, c: char)
    requires |l| <= |s| && l == s[|s| - |l|..]
    requires forall k :: 0 <= k < |s| - |l| ==> s[k] == c
    requires |r| <= |l| && r == l[..|r|]
    requires forall k :: |r| <= k < |l| ==> l[k] == c
    ensures var i := |s| - |l|;
      i + |r| <= |s| && r == s[i..i + |r|] &&
      (forall k :: 0 <= k < i ==> s[k] == c) &&
      (forall k :: i + |r| <= k < |s| ==> s[k] == c)
  {
    var i := |s| - |l|;
    assert forall k :: i <= k < |s| ==> s[k] == l[k - i];
  }

  /** Trimming `c` off `[c] + w`, where `w` has no `c`, recovers `w`. */
  lemma TrimLeading(w: string, c: char)
    requires c !in w
    ensures Trim([c] + w, c) == w
  {
    assert ([c] + w)[1..] == w;
    assert TrimLeft([c] + w, c) == TrimLeft(w, c);
    if |w| > 0 {
      assert w[0] in w;
      assert w[|w| - 1] in w;
    }
  }
}
