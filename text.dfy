/**
 * The few Python `str` operations the system monitor relies on, over Dafny
 * strings (sequences of Unicode scalar values): `in`, `startswith`,
 * `split(sep)`, `strip()`, `split()` and `split(sep, 1)[1]`; plus `Join`,
 * the helper in which the comma-joined rows and headers are stated.
 */
module PyText {
  import opened Wrappers

  /** `c.isspace()`: the characters Python's `strip()` and `split()` drop. */
  predicate IsSpace(c: char) {
    var n := c as int;
    (0x09 <= n <= 0x0D) || (0x1C <= n <= 0x20) || n == 0x85 || n == 0xA0 || n == 0x1680
    || (0x2000 <= n <= 0x200A) || n == 0x2028 || n == 0x2029 || n == 0x202F
    || n == 0x205F || n == 0x3000
  }

  /** `s.startswith(p)` */
  predicate StartsWith(s: string, p: string) {
    |p| <= |s| && s[..|p|] == p
  }

  /** `sub in s`: `sub` occurs somewhere in `s`. */
  predicate Contains(s: string, sub: string) {
    exists i | 0 <= i <= |s| - |sub| :: StartsWith(s[i..], sub)
  }

  /** An occurrence at a known position is an occurrence. */
  lemma ContainsAt(s: string, sub: string, i: int)
    requires 0 <= i <= |s| - |sub|
    requires s[i..i + |sub|] == sub
    ensures Contains(s, sub)
  {
    assert StartsWith(s[i..], sub);
  }

  /** Occurrence is transitive: whatever occurs in `b` occurs wherever `b` occurs. */
  lemma ContainsTransitive(a: string, b: string, c: string)
    requires Contains(a, b) && Contains(b, c)
    ensures Contains(a, c)
  {
    var i :| 0 <= i <= |a| - |b| && StartsWith(a[i..], b);
    var j :| 0 <= j <= |b| - |c| && StartsWith(b[j..], c);
    forall k | 0 <= k < |c|
      ensures a[i + j + k] == c[k]
    {
      assert a[i..][j + k] == b[j + k];
      assert b[j..][k] == c[k];
    }
    assert a[i + j..i + j + |c|] == c;
    ContainsAt(a, c, i + j);
  }

  /** A character of an occurring string is a character of the whole. */
  lemma ContainsChar(s: string, sub: string, k: int)
    requires Contains(s, sub) && 0 <= k < |sub|
    ensures sub[k] in s
  {
    var i :| 0 <= i <= |s| - |sub| && StartsWith(s[i..], sub);
    assert s[i..][k] == sub[k];
    assert s[i + k] == sub[k];
  }

  /** `s.index(c)`: the position of the first `c` in `s`. */
  function IndexOf(s: string, c: char): (i: nat)
    requires c in s
    ensures i < |s| && s[i] == c && c !in s[..i]
  {
    if s[0] == c then 0
    else
      assert s == [s[0]] + s[1..];
      var j := IndexOf(s[1..], c);
      assert s[..j + 1] == [s[0]] + s[1..][..j];
      j + 1
  }

  /** The first `c` in `a + [c] + b` is the one after `a` when `a` holds none. */
  lemma IndexOfAfter(a: string, c: char, b: string)
    requires c !in a
    ensures c in a + [c] + b && IndexOf(a + [c] + b, c) == |a|
  {
    var s := a + [c] + b;
    assert s[|a|] == c;
    var i := IndexOf(s, c);
    assert s[..|a|] == a;
  }

  /** `s.split(c)` for a one-character separator: the pieces between the occurrences of `c`. */
  function Split(s: string, c: char): (r: seq<string>)
    ensures |r| >= 1
    ensures |r| == 1 <==> c !in s
    ensures forall k | 0 <= k < |r| :: c !in r[k]
    decreases |s|
  {
    if c !in s then [s]
    else
      var i := IndexOf(s, c);
      [s[..i]] + Split(s[i + 1..], c)
  }

  /** `c.join(fs)` */
  function Join(fs: seq<string>, c: char): string {
    if |fs| == 0 then ""
    else if |fs| == 1 then fs[0]
    else fs[0] + [c] + Join(fs[1..], c)
  }

  /** Splitting a piece free of `c` off the front. */
  lemma SplitAfterFirst(a: string, c: char, b: string)
    requires c !in a
    ensures Split(a + [c] + b, c) == [a] + Split(b, c)
  {
    var s := a + [c] + b;
    IndexOfAfter(a, c, b);
    assert s[..|a|] == a;
    assert s[|a| + 1..] == b;
  }

  /** Splitting undoes joining, as long as no piece holds the separator. */
  lemma {:induction false} SplitJoin(fs: seq<string>, c: char)
    requires |fs| >= 1
    requires forall k | 0 <= k < |fs| :: c !in fs[k]
    ensures Split(Join(fs, c), c) == fs
  {
    if |fs| > 1 {
      SplitJoin(fs[1..], c);
      SplitAfterFirst(fs[0], c, Join(fs[1..], c));
      assert fs == [fs[0]] + fs[1..];
    }
  }

  /** Joining undoes splitting, for every string. */
  lemma {:induction false} JoinSplit(s: string, c: char)
    ensures Join(Split(s, c), c) == s
    decreases |s|
  {
    if c in s {
      var i := IndexOf(s, c);
      var rest := Split(s[i + 1..], c);
      JoinSplit(s[i + 1..], c);
      assert ([s[..i]] + rest)[1..] == rest;
      assert s == s[..i] + [c] + s[i + 1..];
    }
  }

  /** Joining one more piece appends the separator and the piece. */
  lemma {:induction false} JoinSnoc(fs: seq<string>, x: string, c: char)
    requires |fs| >= 1
    ensures Join(fs + [x], c) == Join(fs, c) + [c] + x
  {
    if |fs| > 1 {
      assert (fs + [x])[1..] == fs[1..] + [x];
      JoinSnoc(fs[1..], x, c);
    }
  }

  /** `s.lstrip()` */
  function TrimStart(s: string): (r: string)
    ensures |r| <= |s| && r == s[|s| - |r|..]
    ensures forall k | 0 <= k < |s| - |r| :: IsSpace(s[k])
    ensures r == [] || !IsSpace(r[0])
  {
    if |s| > 0 && IsSpace(s[0]) then TrimStart(s[1..]) else s
  }

  /** `s.rstrip()` */
  function TrimEnd(s: string): (r: string)
    ensures |r| <= |s| && r == s[..|r|]
    ensures forall k | |r| <= k < |s| :: IsSpace(s[k])
    ensures r == [] || !IsSpace(r[|r| - 1])
  {
    if |s| > 0 && IsSpace(s[|s| - 1]) then TrimEnd(s[..|s| - 1]) else s
  }

  /**
   * `s.strip()`: the part of `s` left between its leading and its trailing
   * whitespace; it neither starts nor ends with whitespace.
   */
  function Strip(s: string): (r: string)
    ensures exists i | 0 <= i <= |s| - |r| ::
      && StartsWith(s[i..], r)
      && (forall k | 0 <= k < i :: IsSpace(s[k]))
      && (forall k | i + |r| <= k < |s| :: IsSpace(s[k]))
    ensures r == [] || (!IsSpace(r[0]) && !IsSpace(r[|r| - 1]))
  {
    var t := TrimStart(s);
    var r := TrimEnd(t);
    var i := |s| - |t|;
    assert StartsWith(s[i..], r);
    r
  }

  /** `s` is nothing but whitespace (or empty). */
  predicate AllSpace(s: string) {
    forall k | 0 <= k < |s| :: IsSpace(s[k])
  }

  /** `w` is a non-empty run of non-whitespace characters. */
  predicate IsWord(w: string) {
    |w| > 0 && forall k | 0 <= k < |w| :: !IsSpace(w[k])
  }

  /** The longest prefix of `s` without whitespace. */
  function WordPrefix(s: string): (w: string)
    ensures |w| <= |s| && w == s[..|w|]
    ensures forall k | 0 <= k < |w| :: !IsSpace(w[k])
    ensures |w| < |s| ==> IsSpace(s[|w|])
  {
    if |s| == 0 || IsSpace(s[0]) then []
    else [s[0]] + WordPrefix(s[1..])
  }

  /** `s.split()`: the maximal runs of non-whitespace characters, in order. */
  function Words(s: string): seq<string>
    decreases |s|
  {
    var t := TrimStart(s);
    if |t| == 0 then []
    else
      var w := WordPrefix(t);
      assert |w| > 0;
      [w] + Words(t[|w|..])
  }

  /** Every piece of `s.split()` is a non-empty run of non-whitespace characters. */
  lemma {:induction false} WordsAreWords(s: string)
    ensures forall k | 0 <= k < |Words(s)| :: IsWord(Words(s)[k])
    decreases |s|
  {
    var t := TrimStart(s);
    if |t| > 0 {
      var w := WordPrefix(t);
      assert IsWord(w);
      WordsAreWords(t[|w|..]);
      var rest := Words(t[|w|..]);
      var ws := Words(s);
      assert ws == [w] + rest;
      forall k | 0 <= k < |ws|
        ensures IsWord(ws[k])
      {
        if k > 0 {
          assert ws[k] == rest[k - 1];
        }
      }
    }
  }

  /** `s.split()` is empty exactly when `s` is all whitespace. */
  lemma WordsEmpty(s: string)
    ensures |Words(s)| == 0 <==> AllSpace(s)
  {
    var t := TrimStart(s);
    if |t| > 0 {
      assert s[|s| - |t|] == t[0];
    }
  }

  /**
   * `w` starts at position `i` of `s`, only whitespace comes before it, and
   * it is not followed by a non-whitespace character.
   */
  predicate FirstRunAt(s: string, i: int, w: string) {
    && 0 <= i <= |s| - |w|
    && AllSpace(s[..i])
    && StartsWith(s[i..], w)
    && (i + |w| == |s| || IsSpace(s[i + |w|]))
  }

  /**
   * The first word of `split()`, the token `split()[0]` picks out, is the
   * run of non-whitespace characters right after the leading whitespace.
   */
  lemma WordsFirst(s: string)
    requires !AllSpace(s)
    ensures |Words(s)| > 0
    ensures FirstRunAt(s, |s| - |TrimStart(s)|, Words(s)[0])
    ensures IsWord(Words(s)[0])
  {
    FirstRunAfterSpace(s);
    WordsUnfold(s);
    WordsAreWords(s);
  }

  /**
   * The later words of `split()` are the words of what follows the first
   * word once the leading whitespace is gone. With `WordsEmpty`,
   * `WordsAreWords` and `WordsFirst` this fixes the words as the maximal
   * runs of non-whitespace characters, in order.
   */
  lemma WordsRest(s: string)
    requires !AllSpace(s)
    ensures |Words(s)| > 0
    ensures Words(s)[1..] == Words(TrimStart(s)[|Words(s)[0]|..])
  {
    FirstRunAfterSpace(s);
    WordsUnfold(s);
  }

  /** One step of `split()`: the first run after the leading whitespace, then the rest. */
  lemma WordsUnfold(s: string)
    requires |TrimStart(s)| > 0
    ensures Words(s) == [WordPrefix(TrimStart(s))] + Words(TrimStart(s)[|WordPrefix(TrimStart(s))|..])
  {
  }

  /** The run `split()` takes first is the one after the leading whitespace. */
  lemma FirstRunAfterSpace(s: string)
    requires !AllSpace(s)
    ensures |TrimStart(s)| > 0
    ensures FirstRunAt(s, |s| - |TrimStart(s)|, WordPrefix(TrimStart(s)))
  {
    var t := TrimStart(s);
    var i := |s| - |t|;
    var w := WordPrefix(t);
    assert StartsWith(s[i..], w) by {
      assert s[i..] == t;
    }
    if i + |w| < |s| {
      assert s[i + |w|] == t[|w|];
    }
  }

  /** A run that is first in `s.strip()` is first in `s` too. */
  lemma StripKeepsFirstRun(s: string, w: string)
    requires FirstRunAt(Strip(s), 0, w)
    ensures exists i | 0 <= i <= |s| :: FirstRunAt(s, i, w)
  {
    var r := Strip(s);
    var i :| 0 <= i <= |s| - |r| && StartsWith(s[i..], r)
      && (forall k | 0 <= k < i :: IsSpace(s[k]))
      && (forall k | i + |r| <= k < |s| :: IsSpace(s[k]));
    FirstRunInside(s, r, w, i);
  }

  /** A run first in a part `r` of `s` with only whitespace around it is first in `s`. */
  lemma FirstRunInside(s: string, r: string, w: string, i: int)
    requires 0 <= i <= |s| - |r| && StartsWith(s[i..], r)
    requires forall k | 0 <= k < i :: IsSpace(s[k])
    requires forall k | i + |r| <= k < |s| :: IsSpace(s[k])
    requires FirstRunAt(r, 0, w)
    ensures FirstRunAt(s, i, w)
  {
    forall k | 0 <= k < |r|
      ensures r[k] == s[i + k]
    {
      assert s[i..][..|r|][k] == s[i + k];
    }
    forall k | 0 <= k < |w|
      ensures w[k] == s[i + k]
    {
      assert r[0..][..|w|][k] == r[k];
    }
    assert s[i..][..|w|] == w;
    if i + |w| < |s| && |w| < |r| {
      assert s[i + |w|] == r[|w|];
    }
  }

  /** The first word of `s.split()` is the first run of non-whitespace characters of `s`. */
  lemma WordsFirstOfStrip(s: string)
    requires !AllSpace(Strip(s))
    ensures |Words(Strip(s))| > 0
    ensures exists i | 0 <= i <= |s| :: FirstRunAt(s, i, Words(Strip(s))[0])
    ensures IsWord(Words(Strip(s))[0])
  {
    var r := Strip(s);
    WordsFirstNoLead(r);
    StripKeepsFirstRun(s, Words(r)[0]);
    WordsAreWords(r);
  }

  /** In a text that does not start with whitespace, the first word starts at 0. */
  lemma WordsFirstNoLead(r: string)
    requires !AllSpace(r) && !IsSpace(r[0])
    ensures |Words(r)| > 0 && FirstRunAt(r, 0, Words(r)[0])
  {
    WordsFirst(r);
    assert |TrimStart(r)| == |r|;
  }

  /**
   * `s.split(c, 1)` when it yields two pieces: the text before the first `c`
   * and the text after it; `None` when `s` holds no `c`.
   */
  function SplitOnce(s: string, c: char): (r: Option<(string, string)>)
    ensures r.Some? <==> c in s
    ensures r.Some? ==> c !in r.value.0 && s == r.value.0 + [c] + r.value.1
  {
    if c in s then
      var i := IndexOf(s, c);
      assert s == s[..i] + [c] + s[i + 1..];
      Some((s[..i], s[i + 1..]))
    else None
  }

  /** `split(c, 1)` of `a + [c] + b` is `(a, b)` when `a` holds no `c`. */
  lemma SplitOnceAfter(a: string, c: char, b: string)
    requires c !in a
    ensures SplitOnce(a + [c] + b, c) == Some((a, b))
  {
    var s := a + [c] + b;
    IndexOfAfter(a, c, b);
    assert s[..|a|] == a;
    assert s[|a| + 1..] == b;
  }

  /**
   * `s.split(c, 1)[1]`: the text after the first `c`, or `None` where
   * Python raises `IndexError` because `s` holds no `c`.
   */
  function AfterFirst(s: string, c: char): (r: Option<string>)
    ensures r.Some? <==> c in s
    ensures r.Some? ==> |r.value| < |s| && c !in s[..|s| - |r.value| - 1]
    ensures r.Some? ==> s == s[..|s| - |r.value| - 1] + [c] + r.value
  {
    match SplitOnce(s, c)
    case None => None
    case Some((before, after)) =>
      assert before == s[..|s| - |after| - 1];
      Some(after)
  }
}
