/**
 * The JavaScript string built-ins that the HTTP layer relies on, written out
 * over `seq<char>`: `replace` with a global one-character pattern, `indexOf`,
 * `Array.prototype.join`, and the decoding and searching helpers used to
 * state properties about them.
 */
module Strings {

  /** `p` occurs in `s` starting at offset `i`. */
  predicate OccursAt(s: string, p: string, i: nat) {
    i + |p| <= |s| && s[i..i + |p|] == p
  }

  /** An occurrence in `b` is an occurrence in `a + b`, shifted by `|a|`. */
  lemma OccursAtShift(a: string, b: string, p: string, j: nat)
    requires OccursAt(b, p, j)
    ensures OccursAt(a + b, p, |a| + j)
  {
    assert (a + b)[|a| + j..|a| + j + |p|] == b[j..j + |p|];
  }

  /** An occurrence in `a` is an occurrence in `a + b` at the same offset. */
  lemma OccursAtPrefix(a: string, b: string, p: string, i: nat)
    requires OccursAt(a, p, i)
    ensures OccursAt(a + b, p, i)
  {
    assert (a + b)[i..i + |p|] == a[i..i + |p|];
  }

  /** One differing character rules out an occurrence. */
  lemma NotOccursAtByChar(s: string, p: string, i: nat, j: nat)
    requires i + j < |s| && j < |p| && s[i + j] != p[j]
    ensures !OccursAt(s, p, i)
  {
    if i + |p| <= |s| {
      assert s[i..i + |p|][j] == s[i + j];
    }
  }

  /**
   * `s.replace(/c/g, rep)` for a replacement without `$` (whose substitution
   * patterns are not modelled): every occurrence of the character `c` is
   * replaced by `rep`, every other character is kept, left to right.
   */
  function ReplaceAll(s: string, c: char, rep: string): (r: string)
    ensures c !in s ==> r == s
    ensures c !in rep ==> c !in r
    ensures forall d :: d in r && d !in rep ==> d in s && d != c
  {
    if s == [] then []
    else (if s[0] == c then rep else [s[0]]) + ReplaceAll(s[1..], c, rep)
  }

  /** Replacing distributes over concatenation. */
  lemma {:induction false} ReplaceAllAppend(a: string, b: string, c: char, rep: string)
    ensures ReplaceAll(a + b, c, rep) == ReplaceAll(a, c, rep) + ReplaceAll(b, c, rep)
  {
    if a == [] {
      assert a + b == b;
    } else {
      assert (a + b)[0] == a[0];
      assert (a + b)[1..] == a[1..] + b;
      ReplaceAllAppend(a[1..], b, c, rep);
    }
  }

  /**
   * The inverse of `ReplaceAll`: scanning left to right, every occurrence of
   * `rep` is turned back into `c`.
   */
  function Unreplace(t: string, c: char, rep: string): (r: string)
    requires rep != []
    ensures |r| <= |t|
    decreases |t|
  {
    if t == [] then []
    else if OccursAt(t, rep, 0) then [c] + Unreplace(t[|rep|..], c, rep)
    else [t[0]] + Unreplace(t[1..], c, rep)
  }

  /** A first character other than `rep[0]` is copied as it is. */
  lemma UnreplacePlainStep(ch: char, q: string, c: char, rep: string)
    requires rep != [] && ch != rep[0]
    ensures Unreplace([ch] + q, c, rep) == [ch] + Unreplace(q, c, rep)
  {
    var t := [ch] + q;
    NotOccursAtByChar(t, rep, 0, 0);
    assert t[1..] == q;
  }

  /** A prefix that does not contain the first character of `rep` is never decoded. */
  lemma {:induction false} UnreplacePlainPrefix(p: string, t: string, c: char, rep: string)
    requires rep != [] && rep[0] !in p
    ensures Unreplace(p + t, c, rep) == p + Unreplace(t, c, rep)
  {
    if p == [] {
      assert p + t == t;
    } else {
      var rest := p[1..];
      assert p == [p[0]] + rest;
      assert p + t == [p[0]] + (rest + t);
      assert rep[0] !in rest by {
        forall i | 0 <= i < |rest| ensures rest[i] != rep[0] {
          assert rest[i] == p[i + 1];
        }
      }
      UnreplacePlainStep(p[0], rest + t, c, rep);
      UnreplacePlainPrefix(rest, t, c, rep);
    }
  }

  /**
   * When the replacement starts with the replaced character itself (as with
   * `&` -> `&amp;`), decoding undoes replacing, for every input.
   */
  lemma {:induction false} UnreplaceReplaceAll(s: string, c: char, rep: string)
    requires rep != [] && rep[0] == c
    ensures Unreplace(ReplaceAll(s, c, rep), c, rep) == s
  {
    if s != [] {
      var t := ReplaceAll(s, c, rep);
      var rest := ReplaceAll(s[1..], c, rep);
      if s[0] == c {
        assert t == rep + rest;
        assert OccursAt(t, rep, 0);
        assert t[|rep|..] == rest;
      } else {
        assert t == [s[0]] + rest;
        assert !OccursAt(t, rep, 0);
        assert t[1..] == rest;
      }
      UnreplaceReplaceAll(s[1..], c, rep);
    }
  }

  /**
   * `s.indexOf(p, k)`: the first offset at or after `k` where `p` occurs,
   * or -1 when there is none.
   */
  function IndexOfFrom(s: string, p: string, k: nat): (r: int)
    requires k <= |s|
    ensures r == -1 || k <= r
    ensures r >= 0 ==> OccursAt(s, p, r) && forall j :: k <= j < r ==> !OccursAt(s, p, j)
    ensures r == -1 ==> forall j :: k <= j ==> !OccursAt(s, p, j)
    decreases |s| - k
  {
    if OccursAt(s, p, k) then k
    else if k == |s| then -1
    else IndexOfFrom(s, p, k + 1)
  }

  /** `s.indexOf(p)`. */
  function IndexOf(s: string, p: string): (r: int)
    ensures r == -1 || (0 <= r && OccursAt(s, p, r))
    ensures r >= 0 ==> forall j :: 0 <= j < r ==> !OccursAt(s, p, j)
    ensures r == -1 <==> forall j :: 0 <= j ==> !OccursAt(s, p, j)
  {
    IndexOfFrom(s, p, 0)
  }

  /** The offset of the last `ch` in `s`, or -1 when `s` has none. */
  function LastIndexOfChar(s: string, ch: char): (r: int)
    ensures -1 <= r < |s|
    ensures r == -1 <==> ch !in s
    ensures r >= 0 ==> r < |s| && s[r] == ch && ch !in s[r + 1..]
  {
    if s == [] then -1
    else if s[|s| - 1] == ch then |s| - 1
    else
      var r := LastIndexOfChar(s[..|s| - 1], ch);
      assert s == s[..|s| - 1] + [s[|s| - 1]];
      assert r >= 0 ==> s[r + 1..] == s[..|s| - 1][r + 1..] + [s[|s| - 1]];
      r
  }

  /** The last `ch` is the one followed by a text without `ch`. */
  lemma {:induction false} LastIndexOfCharBefore(a: string, ch: char, b: string)
    requires ch !in b
    ensures LastIndexOfChar(a + [ch] + b, ch) == |a|
  {
    var s := a + [ch] + b;
    if b != [] {
      assert s[|s| - 1] == b[|b| - 1];
      assert s[..|s| - 1] == a + [ch] + b[..|b| - 1];
      LastIndexOfCharBefore(a, ch, b[..|b| - 1]);
    }
  }

  /** The offset of the first `ch` in `s`, or -1 when `s` has none. */
  function IndexOfChar(s: string, ch: char): (r: int)
    ensures -1 <= r < |s|
    ensures r == -1 <==> ch !in s
    ensures r >= 0 ==> s[r] == ch && ch !in s[..r]
  {
    if s == [] then -1
    else if s[0] == ch then 0
    else
      var r := IndexOfChar(s[1..], ch);
      assert s == [s[0]] + s[1..];
      assert r >= 0 ==> s[..r + 1] == [s[0]] + s[1..][..r];
      if r < 0 then -1 else r + 1
  }

  /** The first `ch` is the one preceded by a text without `ch`. */
  lemma {:induction false} IndexOfCharAfter(a: string, ch: char, b: string)
    requires ch !in a
    ensures IndexOfChar(a + [ch] + b, ch) == |a|
  {
    var s := a + [ch] + b;
    if a != [] {
      assert s[0] == a[0];
      assert s[1..] == a[1..] + [ch] + b;
      IndexOfCharAfter(a[1..], ch, b);
    }
  }

  /** `parts.join(sep)`. */
  function Join(parts: seq<string>, sep: string): (r: string)
    ensures parts == [] ==> r == ""
  {
    if parts == [] then ""
    else if |parts| == 1 then parts[0]
    else parts[0] + sep + Join(parts[1..], sep)
  }

  /** Joining one more part adds a separator and that part at the end. */
  lemma {:induction false} JoinSnoc(parts: seq<string>, sep: string, p: string)
    requires parts != []
    ensures Join(parts + [p], sep) == Join(parts, sep) + sep + p
  {
    var q := parts + [p];
    assert q[0] == parts[0];
    if |parts| == 1 {
      assert q[1..] == [p];
    } else {
      assert q[1..] == parts[1..] + [p];
      JoinSnoc(parts[1..], sep, p);
    }
  }

  /** Where part `k` starts in `Join(parts, sep)`: after every earlier part and its separator. */
  function JoinOffset(parts: seq<string>, sep: string, k: nat): (r: nat)
    requires k <= |parts|
  {
    if k == 0 then 0 else JoinOffset(parts, sep, k - 1) + |parts[k - 1]| + |sep|
  }

  /** Offsets depend only on the parts before. */
  lemma {:induction false} JoinOffsetPrefix(parts: seq<string>, sep: string, n: nat, k: nat)
    requires k <= n <= |parts|
    ensures JoinOffset(parts[..n], sep, k) == JoinOffset(parts, sep, k)
  {
    if k > 0 {
      JoinOffsetPrefix(parts, sep, n, k - 1);
    }
  }

  /** A part ends, and the separator after it ends, before any later part starts. */
  lemma {:induction false} JoinOffsetOrdered(parts: seq<string>, sep: string, k: nat, l: nat)
    requires k < l <= |parts|
    ensures JoinOffset(parts, sep, k) + |parts[k]| + |sep| <= JoinOffset(parts, sep, l)
  {
    if l > k + 1 {
      JoinOffsetOrdered(parts, sep, k, l - 1);
    }
  }

  /** Splitting off the last part: `Join(parts)` is `Join(pre) + sep + last`. */
  lemma JoinSplitLast(parts: seq<string>, sep: string)
    requires |parts| > 1
    ensures Join(parts, sep) == Join(parts[..|parts| - 1], sep) + (sep + parts[|parts| - 1])
  {
    var n := |parts|;
    assert parts == parts[..n - 1] + [parts[n - 1]];
    JoinSnoc(parts[..n - 1], sep, parts[n - 1]);
  }

  /** The joined text ends where the last part ends. */
  lemma {:induction false} JoinLength(parts: seq<string>, sep: string)
    requires parts != []
    ensures |Join(parts, sep)| == JoinOffset(parts, sep, |parts| - 1) + |parts[|parts| - 1]|
  {
    var n := |parts|;
    if n > 1 {
      var pre := parts[..n - 1];
      JoinSplitLast(parts, sep);
      JoinLength(pre, sep);
      JoinOffsetPrefix(parts, sep, n - 1, n - 2);
      assert pre[n - 2] == parts[n - 2];
    }
  }

  /** Part `k` occurs at its offset. */
  lemma {:induction false} JoinPartAt(parts: seq<string>, sep: string, k: nat)
    requires k < |parts|
    ensures OccursAt(Join(parts, sep), parts[k], JoinOffset(parts, sep, k))
  {
    var n := |parts|;
    if n > 1 {
      var pre := parts[..n - 1];
      var tail := sep + parts[n - 1];
      JoinSplitLast(parts, sep);
      if k < n - 1 {
        JoinPartAt(pre, sep, k);
        JoinOffsetPrefix(parts, sep, n - 1, k);
        assert pre[k] == parts[k];
        OccursAtPrefix(Join(pre, sep), tail, parts[k], JoinOffset(pre, sep, k));
      } else {
        JoinLength(pre, sep);
        JoinOffsetPrefix(parts, sep, n - 1, n - 2);
        assert pre[n - 2] == parts[n - 2];
        assert |Join(pre, sep)| + |sep| == JoinOffset(parts, sep, k);
        assert OccursAt(tail, parts[n - 1], |sep|);
        OccursAtShift(Join(pre, sep), tail, parts[n - 1], |sep|);
      }
    }
  }

  /** The separator follows every part but the last. */
  lemma {:induction false} JoinSepAt(parts: seq<string>, sep: string, k: nat)
    requires k < |parts| - 1
    ensures OccursAt(Join(parts, sep), sep, JoinOffset(parts, sep, k) + |parts[k]|)
  {
    var n := |parts|;
    var pre := parts[..n - 1];
    var tail := sep + parts[n - 1];
    JoinSplitLast(parts, sep);
    JoinOffsetPrefix(parts, sep, n - 1, k);
    assert pre[k] == parts[k];
    var at := JoinOffset(pre, sep, k) + |pre[k]|;
    assert at == JoinOffset(parts, sep, k) + |parts[k]|;
    if k < n - 2 {
      JoinSepAt(pre, sep, k);
      OccursAtPrefix(Join(pre, sep), tail, sep, at);
    } else {
      JoinLength(pre, sep);
      assert at == |Join(pre, sep)|;
      assert OccursAt(tail, sep, 0);
      OccursAtShift(Join(pre, sep), tail, sep, 0);
    }
  }

  /** With a non-empty separator, each part ends strictly before any later part starts. */
  lemma JoinPartsInOrder(parts: seq<string>, sep: string)
    requires sep != []
    ensures forall k, l :: 0 <= k < l < |parts| ==>
      JoinOffset(parts, sep, k) + |parts[k]| < JoinOffset(parts, sep, l)
  {
    forall k, l | 0 <= k < l < |parts|
      ensures JoinOffset(parts, sep, k) + |parts[k]| < JoinOffset(parts, sep, l)
    {
      JoinOffsetOrdered(parts, sep, k, l);
    }
  }
}
