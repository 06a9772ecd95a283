/**
 * The few Python `str` operations the packet parser is built from, on
 * `string` = `seq<char>`: `strip()`, `split(sep)` with a one-character
 * separator, the `in` substring test and `replace(old, '')`.
 */
module Text {

  /** The characters Python's `str.isspace()` accepts, i.e. what `strip()` removes. */
  predicate IsSpace(c: char) {
    || c == ' '
    || ('\t' <= c <= '\r')
    || ('\U{1C}' <= c <= '\U{1F}')
    || c == '\U{85}' || c == '\U{A0}' || c == '\U{1680}'
    || ('\U{2000}' <= c <= '\U{200A}')
    || c == '\U{2028}' || c == '\U{2029}' || c == '\U{202F}' || c == '\U{205F}' || c == '\U{3000}'
  }

  /** Number of occurrences of `c` in `s`. */
  function Count(s: string, c: char): nat {
    if s == [] then 0 else (if s[0] == c then 1 else 0) + Count(s[1..], c)
  }

  lemma {:induction false} CountAppend(a: string, b: string, c: char)
    ensures Count(a + b, c) == Count(a, c) + Count(b, c)
  {
    if a != [] {
      assert (a + b)[0] == a[0];
      assert (a + b)[1..] == a[1..] + b;
      CountAppend(a[1..], b, c);
    } else {
      assert a + b == b;
    }
  }

  lemma {:induction false} CountAbsent(s: string, c: char)
    ensures Count(s, c) == 0 <==> c !in s
  {
    if s != [] {
      CountAbsent(s[1..], c);
      assert c in s <==> s[0] == c || c in s[1..];
    }
  }

  /** Python's `s.lstrip()`: a suffix of `s` that starts with no blank, and only blanks were dropped. */
  function TrimLeft(s: string): (r: string)
    ensures |r| <= |s|
    ensures r == [] || !IsSpace(r[0])
    ensures forall i :: 0 <= i < |s| - |r| ==> IsSpace(s[i])
  {
    if s != [] && IsSpace(s[0]) then TrimLeft(s[1..]) else s
  }

  lemma {:induction false} TrimLeftIsSuffix(s: string)
    ensures TrimLeft(s) == s[|s| - |TrimLeft(s)|..]
  {
    if s != [] && IsSpace(s[0]) {
      TrimLeftIsSuffix(s[1..]);
    }
  }

  /** Python's `s.rstrip()`: a prefix of `s` that ends with no blank, and only blanks were dropped. */
  function TrimRight(s: string): (r: string)
    ensures |r| <= |s| && r == s[..|r|]
    ensures r == [] || !IsSpace(r[|r| - 1])
    ensures forall i :: |r| <= i < |s| ==> IsSpace(s[i])
  {
    if s != [] && IsSpace(s[|s| - 1]) then TrimRight(s[..|s| - 1]) else s
  }

  /** Python's `s.strip()`. */
  function Strip(s: string): (r: string)
    ensures r == [] || (!IsSpace(r[0]) && !IsSpace(r[|r| - 1]))
  {
    TrimRight(TrimLeft(s))
  }

  /** Stripping cuts only blanks: the result sits in `s` between a blank prefix and a blank suffix. */
  lemma StripOnlyBlanks(s: string)
    ensures var r, k := Strip(s), |s| - |TrimLeft(s)|;
      0 <= k && k + |r| <= |s| && r == s[k..k + |r|]
        && (forall i :: 0 <= i < k ==> IsSpace(s[i]))
        && (forall i :: k + |r| <= i < |s| ==> IsSpace(s[i]))
  {
    var l := TrimLeft(s);
    var r := Strip(s);
    var k := |s| - |l|;
    TrimLeftIsSuffix(s);
    assert r == l[..|r|];
    assert r == s[k..k + |r|];
    forall i | k + |r| <= i < |s|
      ensures IsSpace(s[i])
    {
      assert s[i] == l[i - k];
    }
  }

  lemma CountBlanks(s: string, c: char)
    requires !IsSpace(c)
    requires forall i :: 0 <= i < |s| ==> IsSpace(s[i])
    ensures Count(s, c) == 0
  {
    CountAbsent(s, c);
  }

  lemma TrimLeftKeepsCount(s: string, c: char)
    requires !IsSpace(c)
    ensures Count(TrimLeft(s), c) == Count(s, c)
  {
    var l := TrimLeft(s);
    var k := |s| - |l|;
    TrimLeftIsSuffix(s);
    assert s == s[..k] + l;
    CountAppend(s[..k], l, c);
    CountBlanks(s[..k], c);
  }

  lemma TrimRightKeepsCount(s: string, c: char)
    requires !IsSpace(c)
    ensures Count(TrimRight(s), c) == Count(s, c)
  {
    var r := TrimRight(s);
    assert s == r + s[|r|..];
    CountAppend(r, s[|r|..], c);
    CountBlanks(s[|r|..], c);
  }

  /** Stripping only removes blanks, so it keeps every other character's count. */
  lemma StripKeepsCount(s: string, c: char)
    requires !IsSpace(c)
    ensures Count(Strip(s), c) == Count(s, c)
  {
    TrimLeftKeepsCount(s, c);
    TrimRightKeepsCount(TrimLeft(s), c);
  }

  /** Stripping leaves a text unchanged exactly when it has no blank at either end. */
  lemma StripUnchanged(s: string)
    ensures Strip(s) == s <==> (s == [] || (!IsSpace(s[0]) && !IsSpace(s[|s| - 1])))
  {
  }

  /** Stripping twice is stripping once (the source strips the channel body twice). */
  lemma StripIdempotent(s: string)
    ensures Strip(Strip(s)) == Strip(s)
  {
  }

  /** Index of the first `c` in `s`. */
  function IndexOf(s: string, c: char): (i: nat)
    requires c in s
    ensures i < |s| && s[i] == c && c !in s[..i]
  {
    if s[0] == c then 0 else 1 + IndexOf(s[1..], c)
  }

  /** The first occurrence is the only one with no earlier occurrence. */
  lemma {:induction false} IndexOfUnique(s: string, c: char, k: nat)
    requires k < |s| && s[k] == c && c !in s[..k]
    ensures IndexOf(s, c) == k
  {
    if k > 0 {
      assert s[0] == s[..k][0];
      assert s[1..][..k - 1] == s[..k][1..];
      IndexOfUnique(s[1..], c, k - 1);
    }
  }

  /** The text of `s` before its first `c`, all of `s` when there is none. */
  function BeforeFirst(s: string, c: char): (r: string)
    ensures c !in r && r <= s
    ensures c in s ==> |r| < |s| && s[|r|] == c
    ensures c !in s ==> r == s
  {
    if c in s then s[..IndexOf(s, c)] else s
  }

  /** Before the first `c` of `a + [c] + b` there is exactly `a`, and after it `b`. */
  lemma BeforeFirstStops(a: string, b: string, c: char)
    requires c !in a
    ensures c in a + [c] + b
    ensures IndexOf(a + [c] + b, c) == |a|
    ensures BeforeFirst(a + [c] + b, c) == a
    ensures (a + [c] + b)[|a| + 1..] == b
  {
    var s := a + [c] + b;
    assert s[|a|] == c && s[..|a|] == a;
    IndexOfUnique(s, c, |a|);
  }

  /** A prefix without `c` is kept whole by `BeforeFirst`. */
  lemma BeforeFirstSkips(a: string, b: string, c: char)
    requires c !in a
    ensures BeforeFirst(a + b, c) == a + BeforeFirst(b, c)
  {
    var s := a + b;
    if c in b {
      var i := IndexOf(b, c);
      assert s[|a| + i] == c;
      assert s[..|a| + i] == a + b[..i];
      IndexOfUnique(s, c, |a| + i);
    } else {
      assert c !in s by {
        forall k | 0 <= k < |s| ensures s[k] != c {
          if k < |a| { assert s[k] == a[k]; } else { assert s[k] == b[k - |a|]; }
        }
      }
    }
  }

  lemma Regroup(a: string, b: string, c: string, d: string, e: string)
    ensures a + b + c + d + e == a + b + (c + d + e)
  {
  }

  /** Python's `s.split(c)`: the pieces between the occurrences of `c`. */
  function Split(s: string, c: char): (r: seq<string>)
    ensures |r| > 0
    decreases |s|
  {
    if c in s then
      var i := IndexOf(s, c);
      [s[..i]] + Split(s[i + 1..], c)
    else [s]
  }

  /** Python's `c.join(parts)`, the inverse of `Split`. */
  function Join(parts: seq<string>, c: char): string
    requires |parts| > 0
  {
    if |parts| == 1 then parts[0] else parts[0] + [c] + Join(parts[1..], c)
  }

  /** The first occurrence of `c` accounts for one of its occurrences; the rest follow it. */
  lemma CountAtFirst(s: string, c: char)
    requires c in s
    ensures Count(s, c) == 1 + Count(s[IndexOf(s, c) + 1..], c)
  {
    var i := IndexOf(s, c);
    assert s == s[..i] + [c] + s[i + 1..];
    CountAppend(s[..i] + [c], s[i + 1..], c);
    CountAppend(s[..i], [c], c);
    CountAbsent(s[..i], c);
  }

  /** No piece contains the separator, and there is one more piece than separators. */
  lemma {:induction false} SplitPieces(s: string, c: char)
    ensures |Split(s, c)| == Count(s, c) + 1
    ensures forall k :: 0 <= k < |Split(s, c)| ==> c !in Split(s, c)[k]
    decreases |s|
  {
    if c in s {
      var i := IndexOf(s, c);
      var rest := Split(s[i + 1..], c);
      SplitPieces(s[i + 1..], c);
      CountAtFirst(s, c);
      var r := Split(s, c);
      assert r == [s[..i]] + rest;
      forall k | 0 <= k < |r| ensures c !in r[k] {
        if k > 0 { assert r[k] == rest[k - 1]; }
      }
    } else {
      CountAbsent(s, c);
    }
  }

  /** The first piece is the text before the first separator. */
  lemma SplitFirst(s: string, c: char)
    ensures Split(s, c)[0] == BeforeFirst(s, c)
  {
  }

  /** The first piece is the text before the first separator, the second the text between the first two. */
  lemma SplitHead(s: string, c: char)
    ensures Split(s, c)[0] == BeforeFirst(s, c)
    ensures c in s ==> |Split(s, c)| >= 2 && Split(s, c)[1] == BeforeFirst(s[IndexOf(s, c) + 1..], c)
    ensures c !in s ==> Split(s, c) == [s]
  {
    SplitFirst(s, c);
    if c in s {
      var i := IndexOf(s, c);
      var rest := Split(s[i + 1..], c);
      SplitFirst(s[i + 1..], c);
      assert Split(s, c) == [s[..i]] + rest;
      assert Split(s, c)[1] == rest[0];
    }
  }

  /** With exactly one separator there are two pieces: the text before it and the text after it. */
  lemma SplitOnce(s: string, c: char)
    requires Count(s, c) == 1
    ensures c in s
    ensures Split(s, c) == [s[..IndexOf(s, c)], s[IndexOf(s, c) + 1..]]
  {
    CountAbsent(s, c);
    var i := IndexOf(s, c);
    CountAtFirst(s, c);
    CountAbsent(s[i + 1..], c);
    assert Split(s, c) == [s[..i]] + Split(s[i + 1..], c);
  }

  /** Joining the pieces back with the separator gives the original text. */
  lemma {:induction false} JoinSplit(s: string, c: char)
    ensures Join(Split(s, c), c) == s
    decreases |s|
  {
    if c in s {
      var i := IndexOf(s, c);
      var rest := Split(s[i + 1..], c);
      JoinSplit(s[i + 1..], c);
      assert ([s[..i]] + rest)[1..] == rest;
      assert s == s[..i] + [c] + s[i + 1..];
    }
  }

  /** Splitting pieces that hold no separator after joining them gives the pieces back. */
  lemma {:induction false} SplitJoin(parts: seq<string>, c: char)
    requires |parts| > 0
    requires forall k :: 0 <= k < |parts| ==> c !in parts[k]
    ensures Split(Join(parts, c), c) == parts
    decreases |parts|
  {
    if |parts| > 1 {
      var p := parts[0];
      var tail := Join(parts[1..], c);
      var s := p + [c] + tail;
      assert s[..|p|] == p;
      IndexOfUnique(s, c, |p|);
      assert s[|p| + 1..] == tail;
      SplitJoin(parts[1..], c);
      assert parts == [p] + parts[1..];
    }
  }

  /** Python's `pat in s`. */
  predicate Contains(s: string, pat: string)
    decreases |s|
  {
    |pat| <= |s| && (s[..|pat|] == pat || Contains(s[1..], pat))
  }

  /** `pat` occurs in `s` starting at position `i`. */
  predicate OccursAt(s: string, pat: string, i: int) {
    0 <= i <= |s| - |pat| && s[i..i + |pat|] == pat
  }

  /** `Contains` holds exactly when `pat` occurs at some position of `s`. */
  lemma {:induction false} ContainsAt(s: string, pat: string)
    ensures Contains(s, pat) <==> exists i :: OccursAt(s, pat, i)
    decreases |s|
  {
    if |pat| <= |s| && s[..|pat|] != pat {
      ContainsAt(s[1..], pat);
      if exists i :: OccursAt(s, pat, i) {
        var i :| OccursAt(s, pat, i);
        assert i > 0;
        assert OccursAt(s[1..], pat, i - 1) by {
          assert s[1..][i - 1..i - 1 + |pat|] == s[i..i + |pat|];
        }
      }
      if Contains(s[1..], pat) {
        var j :| OccursAt(s[1..], pat, j);
        assert OccursAt(s, pat, j + 1) by {
          assert s[j + 1..j + 1 + |pat|] == s[1..][j..j + |pat|];
        }
      }
    } else if |pat| <= |s| {
      assert OccursAt(s, pat, 0);
    }
  }

  /** A text without the pattern's first character does not contain the pattern. */
  lemma ContainsNeedsFirst(s: string, pat: string)
    requires |pat| > 0 && pat[0] !in s
    ensures !Contains(s, pat)
  {
    ContainsAt(s, pat);
    forall i | 0 <= i <= |s| - |pat| ensures !OccursAt(s, pat, i) {
      assert s[i..i + |pat|][0] == s[i];
    }
  }

  /** Python's `s.replace(pat, '')`: every occurrence found by a left-to-right scan is removed. */
  function RemoveAll(s: string, pat: string): (r: string)
    requires |pat| > 0
    ensures |r| <= |s|
    decreases |s|
  {
    if |s| < |pat| then s
    else if s[..|pat|] == pat then RemoveAll(s[|pat|..], pat)
    else [s[0]] + RemoveAll(s[1..], pat)
  }

  /** Removal changes the text exactly when the pattern occurs in it. */
  lemma {:induction false} RemoveAllChanges(s: string, pat: string)
    requires |pat| > 0
    ensures RemoveAll(s, pat) == s <==> !Contains(s, pat)
    decreases |s|
  {
    if |s| >= |pat| && s[..|pat|] != pat {
      RemoveAllChanges(s[1..], pat);
      assert s == [s[0]] + s[1..];
    }
  }

}
