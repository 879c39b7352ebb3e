/** Sequence and string operations with the semantics of the Python built-ins
    the converters use (`find`, `rfind`, `replace`, `strip`, `split`, slicing),
    together with the facts about `replace` that the placeholder rewrites rely on. */
module Text {

  /** `p` occurs in `s` starting at index `i`. */
  predicate OccursAt<T(==)>(s: seq<T>, p: seq<T>, i: int) {
    0 <= i && i + |p| <= |s| && s[i..i + |p|] == p
  }

  predicate StartsWith<T(==)>(s: seq<T>, p: seq<T>) {
    |p| <= |s| && s[..|p|] == p
  }

  /** Python's `p in s` for strings and bytes. */
  predicate Contains<T(==)>(s: seq<T>, p: seq<T>) {
    exists i :: 0 <= i <= |s| - |p| && OccursAt(s, p, i)
  }

  /** Python's `s.find(p, from)`: the leftmost occurrence at or after `from`, or -1. */
  function Find<T(==)>(s: seq<T>, p: seq<T>, from: nat): (r: int)
    ensures r == -1 || (from <= r && OccursAt(s, p, r))
    ensures forall i :: from <= i && (r == -1 || i < r) ==> !OccursAt(s, p, i)
    decreases |s| - from
  {
    if from + |p| > |s| then -1
    else if s[from..from + |p|] == p then from
    else Find(s, p, from + 1)
  }

  /** The first occurrence at or after `from` is what `find` returns. */
  lemma FindFirst<T>(s: seq<T>, p: seq<T>, from: nat, k: nat)
    requires from <= k && OccursAt(s, p, k)
    requires forall i :: from <= i < k ==> !OccursAt(s, p, i)
    ensures Find(s, p, from) == k
  {
    var r := Find(s, p, from);
    assert r != -1 && !(r < k) && !(k < r);
  }

  /** Python's `s.rfind(x)` for a one-element pattern: the last index of `x`, or -1. */
  function RFind<T(==)>(s: seq<T>, x: T): (r: int)
    ensures -1 <= r < |s|
    ensures r >= 0 ==> s[r] == x
    ensures forall j :: r < j < |s| ==> s[j] != x
  {
    if |s| == 0 then -1
    else if s[|s| - 1] == x then |s| - 1
    else RFind(s[..|s| - 1], x)
  }

  function Min(a: int, b: int): int { if a <= b then a else b }

  /** A one-element pattern occurs only where its element does. */
  lemma ContainsElem<T>(s: seq<T>, x: T)
    ensures Contains(s, [x]) <==> x in s
  {
    forall i | 0 <= i < |s| ensures OccursAt(s, [x], i) <==> s[i] == x {
      assert s[i..i + 1] == [s[i]];
    }
  }

  /** Python's slice `s[i:j]` for non-negative bounds: clamped, and empty when `j <= i`. */
  function Slice<T>(s: seq<T>, i: nat, j: nat): (r: seq<T>)
    ensures i <= j <= |s| ==> r == s[i..j]
    ensures j <= i || |s| <= i ==> r == []
  {
    var hi := if j <= |s| then j else |s|;
    if i < hi then s[i..hi] else []
  }

  /** Python's `s.replace(p, q)`: every leftmost, non-overlapping occurrence of `p` is replaced by `q`. */
  function Replace<T(==)>(s: seq<T>, p: seq<T>, q: seq<T>): seq<T>
    requires |p| > 0
    decreases |s|
  {
    if |s| == 0 then []
    else if StartsWith(s, p) then q + Replace(s[|p|..], p, q)
    else [s[0]] + Replace(s[1..], p, q)
  }

  /** Keeps the elements satisfying `f`, in order. */
  function Filter<T>(f: T -> bool, s: seq<T>): (r: seq<T>)
    ensures |r| <= |s|
    ensures forall i :: 0 <= i < |r| ==> f(r[i])
    ensures forall x :: x in s && f(x) ==> x in r
    ensures forall x :: x in r ==> x in s
  {
    if |s| == 0 then []
    else if f(s[0]) then [s[0]] + Filter(f, s[1..])
    else Filter(f, s[1..])
  }

  /** Filtering respects concatenation, so kept elements stay in their original order. */
  lemma {:induction false} FilterAppend<T>(f: T -> bool, a: seq<T>, b: seq<T>)
    ensures Filter(f, a + b) == Filter(f, a) + Filter(f, b)
  {
    if |a| > 0 {
      assert (a + b)[1..] == a[1..] + b;
      FilterAppend(f, a[1..], b);
    } else {
      assert a + b == b;
    }
  }

  /** A replacement whose old and new texts agree once filtered leaves the filtered text unchanged. */
  lemma {:induction false} ReplaceFilter<T>(f: T -> bool, s: seq<T>, p: seq<T>, q: seq<T>)
    requires |p| > 0 && Filter(f, p) == Filter(f, q)
    ensures Filter(f, Replace(s, p, q)) == Filter(f, s)
    decreases |s|
  {
    if |s| > 0 {
      if StartsWith(s, p) {
        ReplaceFilter(f, s[|p|..], p, q);
        FilterAppend(f, q, Replace(s[|p|..], p, q));
        assert s == p + s[|p|..];
        FilterAppend(f, p, s[|p|..]);
      } else {
        ReplaceFilter(f, s[1..], p, q);
        FilterAppend(f, [s[0]], Replace(s[1..], p, q));
        assert s == [s[0]] + s[1..];
        FilterAppend(f, [s[0]], s[1..]);
      }
    }
  }

  /** Filtering changes nothing exactly when every element is kept. */
  lemma {:induction false} FilterIdentity<T>(f: T -> bool, s: seq<T>)
    ensures Filter(f, s) == s <==> forall i :: 0 <= i < |s| ==> f(s[i])
  {
    if |s| > 0 {
      FilterIdentity(f, s[1..]);
      if !f(s[0]) {
        assert |Filter(f, s)| < |s| by { assert Filter(f, s) == Filter(f, s[1..]); }
      }
    }
  }

  // ---------------------------------------------------------------------
  // Character classes and case (ASCII) used by the converters
  // ---------------------------------------------------------------------

  predicate IsAsciiLetter(c: char) { 'A' <= c <= 'Z' || 'a' <= c <= 'z' }
  predicate IsAsciiDigit(c: char) { '0' <= c <= '9' }
  predicate IsAsciiAlnum(c: char) { IsAsciiLetter(c) || IsAsciiDigit(c) }

  /** Python's `str.isspace()` (the full Unicode set of whitespace code points). */
  predicate IsSpace(c: char) {
    var n := c as int;
    (0x09 <= n <= 0x0D) || (0x1C <= n <= 0x20) || n == 0x85 || n == 0xA0
    || n == 0x1680 || (0x2000 <= n <= 0x200A) || n == 0x2028 || n == 0x2029
    || n == 0x202F || n == 0x205F || n == 0x3000
  }

  /** ASCII lower-casing, standing for Python's `str.lower()` (see README). */
  function Lower(s: string): (r: string)
    ensures |r| == |s|
    ensures forall i :: 0 <= i < |s| ==> r[i] == if 'A' <= s[i] <= 'Z' then (s[i] as int + 32) as char else s[i]
  {
    if |s| == 0 then []
    else [if 'A' <= s[0] <= 'Z' then (s[0] as int + 32) as char else s[0]] + Lower(s[1..])
  }

  function LStrip(s: string): (r: string)
    ensures |r| <= |s| && r == s[|s| - |r|..]
    ensures |r| > 0 ==> !IsSpace(r[0])
    ensures forall i :: 0 <= i < |s| - |r| ==> IsSpace(s[i])
  {
    if |s| > 0 && IsSpace(s[0]) then LStrip(s[1..]) else s
  }

  function RStrip(s: string): (r: string)
    ensures |r| <= |s| && r == s[..|r|]
    ensures |r| > 0 ==> !IsSpace(r[|r| - 1])
    ensures forall i :: |r| <= i < |s| ==> IsSpace(s[i])
  {
    if |s| > 0 && IsSpace(s[|s| - 1]) then RStrip(s[..|s| - 1]) else s
  }

  /** Python's `s.strip()`. */
  function Strip(s: string): (r: string)
  {
    RStrip(LStrip(s))
  }

  /** Stripping a text that begins with a non-space character leaves it non-empty. */
  lemma StripNonEmpty(s: string)
    requires |s| > 0 && !IsSpace(s[0])
    ensures |Strip(s)| > 0
  {
    assert LStrip(s) == s;
  }

  /** Python's `s.split(sep)` for a one-element separator. */
  function Split<T(==)>(s: seq<T>, sep: T): (r: seq<seq<T>>)
    ensures |r| > 0
    ensures forall i :: 0 <= i < |r| ==> sep !in r[i]
    decreases |s|
  {
    var k := Find(s, [sep], 0);
    if k == -1 then
      assert forall i :: 0 <= i < |s| ==> s[i] != sep by {
        forall i | 0 <= i < |s| ensures s[i] != sep { assert s[i..i + 1] == [s[i]]; assert !OccursAt(s, [sep], i); }
      }
      [s]
    else
      assert forall i :: 0 <= i < k ==> s[i] != sep by {
        forall i | 0 <= i < k ensures s[i] != sep { assert s[i..i + 1] == [s[i]]; assert !OccursAt(s, [sep], i); }
      }
      [s[..k]] + Split(s[k + 1..], sep)
  }

  /** Python's `sep.join(parts)` for a one-element separator. */
  function Join<T>(parts: seq<seq<T>>, sep: T): seq<T>
  {
    if |parts| == 0 then []
    else if |parts| == 1 then parts[0]
    else parts[0] + [sep] + Join(parts[1..], sep)
  }

  /** Splitting loses nothing: joining the pieces again restores the input. */
  lemma {:induction false} SplitJoin<T>(s: seq<T>, sep: T)
    ensures Join(Split(s, sep), sep) == s
    decreases |s|
  {
    var k := Find(s, [sep], 0);
    if k != -1 {
      var parts := Split(s[k + 1..], sep);
      assert Split(s, sep) == [s[..k]] + parts;
      assert ([s[..k]] + parts)[1..] == parts;
      assert Join(Split(s, sep), sep) == s[..k] + [sep] + Join(parts, sep);
      SplitJoin(s[k + 1..], sep);
      assert s[k..k + 1] == [sep];
      assert s == s[..k] + [sep] + s[k + 1..];
    }
  }

  // ---------------------------------------------------------------------
  // Facts about Replace
  // ---------------------------------------------------------------------

  /** Replacing one element by another works element by element. */
  lemma {:induction false} ReplaceElem<T>(s: seq<T>, x: T, y: T)
    ensures |Replace(s, [x], [y])| == |s|
    ensures forall i :: 0 <= i < |s| ==> Replace(s, [x], [y])[i] == if s[i] == x then y else s[i]
    decreases |s|
  {
    if |s| > 0 {
      ReplaceElem(s[1..], x, y);
      assert s[..1] == [s[0]];
      var t := Replace(s[1..], [x], [y]);
      assert Replace(s, [x], [y]) == (if s[0] == x then [y] else [s[0]]) + t;
    }
  }

  /** Replacing a pattern that does not occur changes nothing. */
  lemma {:induction false} ReplaceAbsent<T>(s: seq<T>, p: seq<T>, q: seq<T>)
    requires |p| > 0 && !Contains(s, p)
    ensures Replace(s, p, q) == s
    decreases |s|
  {
    if |s| > 0 {
      assert !OccursAt(s, p, 0);
      assert !Contains(s[1..], p) by {
        forall i | OccursAt(s[1..], p, i) ensures OccursAt(s, p, i + 1) {
          assert s[1..][i..i + |p|] == s[i + 1..i + 1 + |p|];
        }
      }
      ReplaceAbsent(s[1..], p, q);
    }
  }

  /** An element found neither in `s` nor in the replacement is not in the result. */
  lemma {:induction false} ReplaceKeepsOut<T>(s: seq<T>, p: seq<T>, q: seq<T>, x: T)
    requires |p| > 0 && x !in s && x !in q
    ensures x !in Replace(s, p, q)
    decreases |s|
  {
    if |s| > 0 {
      if StartsWith(s, p) {
        ReplaceKeepsOut(s[|p|..], p, q, x);
      } else {
        ReplaceKeepsOut(s[1..], p, q, x);
      }
    }
  }

  /** A shorter replacement shortens any input that contains the pattern. */
  lemma {:induction false} ReplaceShrinks<T>(s: seq<T>, p: seq<T>, q: seq<T>)
    requires |p| > 0 && |q| < |p|
    ensures |Replace(s, p, q)| <= |s|
    ensures Contains(s, p) ==> |Replace(s, p, q)| < |s|
    decreases |s|
  {
    if |s| > 0 {
      if StartsWith(s, p) {
        ReplaceShrinks(s[|p|..], p, q);
      } else {
        ReplaceShrinks(s[1..], p, q);
        if Contains(s, p) {
          var i :| 0 <= i <= |s| - |p| && OccursAt(s, p, i);
          assert i != 0 by { assert s[..|p|] == s[0..|p|]; }
          OccursInPrefixShift(s, p, i);
        }
      }
    }
  }

  /** An occurrence of `r` that may start at index `i` of `q`, whatever follows `q`. */
  predicate Overlaps<T(==)>(q: seq<T>, r: seq<T>, i: nat) {
    forall j :: 0 <= j < |r| && i + j < |q| ==> q[i + j] == r[j]
  }

  /** No occurrence of `r` can begin inside `q`. */
  predicate NoStartInside<T(==)>(q: seq<T>, r: seq<T>) {
    forall i: nat :: i < |q| ==> !Overlaps(q, r, i)
  }

  /** No suffix of `w` agrees with `q` as far as both reach: wherever a copy
      of `q` began inside `w`, the two would disagree. */
  predicate Unaligned<T(==)>(w: seq<T>, q: seq<T>) {
    forall i :: 0 <= i < |w| ==> !Overlaps(q, w[i..], 0)
  }

  /** A text that does not contain the first element of `q` is unaligned with it. */
  lemma UnalignedByHead<T>(w: seq<T>, q: seq<T>)
    requires |q| > 0 && q[0] !in w
    ensures Unaligned(w, q)
  {
    forall i | 0 <= i < |w| ensures !Overlaps(q, w[i..], 0) {
      assert w[i..][0] == w[i];
    }
  }

  /** If the output of a replacement begins with `w`, and no copy of the
      replacement text can line up with any suffix of `w`, then the input
      begins with `w`. */
  lemma {:induction false} ReplacePrefixFromInput<T>(t: seq<T>, p: seq<T>, q: seq<T>, w: seq<T>)
    requires |p| > 0 && |q| > 0 && Unaligned(w, q)
    requires StartsWith(Replace(t, p, q), w)
    ensures StartsWith(t, w)
    decreases |t|
  {
    if |w| > 0 && |t| > 0 {
      if StartsWith(t, p) {
        assert Replace(t, p, q) == q + Replace(t[|p|..], p, q);
        PrefixAligns(q, Replace(t[|p|..], p, q), w);
      } else {
        var rest := Replace(t[1..], p, q);
        assert Replace(t, p, q) == [t[0]] + rest;
        assert StartsWith(rest, w[1..]) by {
          assert rest[..|w| - 1] == Replace(t, p, q)[1..|w|];
        }
        forall i | 0 <= i < |w[1..]| ensures !Overlaps(q, w[1..][i..], 0) {
          assert w[1..][i..] == w[i + 1..];
        }
        ReplacePrefixFromInput(t[1..], p, q, w[1..]);
        assert t[..|w|] == [t[0]] + t[1..][..|w| - 1];
      }
    }
  }

  /** `ReplacePrefixFromInput` stated as an implication, for chains that refute a prefix. */
  lemma ReplacePrefixBack<T>(t: seq<T>, p: seq<T>, q: seq<T>, w: seq<T>)
    requires |p| > 0 && |q| > 0 && Unaligned(w, q)
    ensures StartsWith(Replace(t, p, q), w) ==> StartsWith(t, w)
  {
    if StartsWith(Replace(t, p, q), w) {
      ReplacePrefixFromInput(t, p, q, w);
    }
  }

  /** A prefix of `q + rest` agrees with `q` as far as both reach. */
  lemma PrefixAligns<T>(q: seq<T>, rest: seq<T>, w: seq<T>)
    requires StartsWith(q + rest, w)
    ensures Overlaps(q, w[0..], 0)
  {
    forall j | 0 <= j < |w[0..]| && j < |q| ensures q[j] == w[0..][j] {
      assert (q + rest)[..|w|][j] == w[j];
    }
  }

  /** Elements before the first possible match are copied through unchanged. */
  lemma {:induction false} ReplaceAfterRaw<T>(w: seq<T>, t: seq<T>, p: seq<T>, q: seq<T>)
    requires |p| > 0
    requires forall i :: 0 <= i < |w| ==> !OccursAt(w + t, p, i)
    ensures Replace(w + t, p, q) == w + Replace(t, p, q)
    decreases |w|
  {
    if |w| == 0 {
      assert w + t == t;
    } else {
      assert !OccursAt(w + t, p, 0);
      assert (w + t)[1..] == w[1..] + t;
      forall i | 0 <= i < |w[1..]| ensures !OccursAt(w[1..] + t, p, i) {
        if OccursAt(w[1..] + t, p, i) {
          OccursInSuffix(w + t, p, 1, i);
        }
      }
      ReplaceAfterRaw(w[1..], t, p, q);
    }
  }

  lemma OccursInPrefixShift<T>(s: seq<T>, p: seq<T>, i: int)
    requires 1 <= i && OccursAt(s, p, i)
    ensures OccursAt(s[1..], p, i - 1)
  {
    assert s[1..][i - 1..i - 1 + |p|] == s[i..i + |p|];
  }

  lemma OccursInSuffix<T>(s: seq<T>, r: seq<T>, k: nat, i: int)
    requires k <= |s| && OccursAt(s[k..], r, i)
    ensures OccursAt(s, r, i + k)
  {
    assert s[k..][i..i + |r|] == s[i + k..i + k + |r|];
  }

  /** An occurrence in `a + b` that starts inside `a` agrees with `a` where they meet. */
  lemma OccursInHead<T>(a: seq<T>, b: seq<T>, r: seq<T>, k: nat)
    requires OccursAt(a + b, r, k) && k < |a|
    ensures Overlaps(a, r, k)
  {
    forall j | 0 <= j < |r| && k + j < |a| ensures a[k + j] == r[j] {
      assert (a + b)[k..k + |r|][j] == r[j];
    }
  }

  /** An occurrence in `a + b` that starts after `a` is an occurrence in `b`. */
  lemma OccursInTail<T>(a: seq<T>, b: seq<T>, r: seq<T>, k: nat)
    requires OccursAt(a + b, r, k) && k >= |a|
    ensures OccursAt(b, r, k - |a|)
  {
    assert (a + b)[k..k + |r|] == b[k - |a|..k - |a| + |r|];
  }

  /** No occurrence of `r` in the result of a replacement at a given index. */
  lemma {:induction false} ReplaceAvoidsAt<T>(s: seq<T>, p: seq<T>, q: seq<T>, r: seq<T>, k: int)
    requires |p| > 0 && |q| > 0 && |r| > 0
    requires Unaligned(r[1..], q)
    requires NoStartInside(q, r)
    requires r == p || !Contains(s, r)
    ensures !OccursAt(Replace(s, p, q), r, k)
    decreases |s|
  {
    if |s| > 0 && OccursAt(Replace(s, p, q), r, k) {
      if StartsWith(s, p) {
        var rest := Replace(s[|p|..], p, q);
        assert Replace(s, p, q) == q + rest;
        if r != p {
          forall i | OccursAt(s[|p|..], r, i) ensures false { OccursInSuffix(s, r, |p|, i); }
        }
        if k < |q| {
          OccursInHead(q, rest, r, k);
        } else {
          OccursInTail(q, rest, r, k);
          ReplaceAvoidsAt(s[|p|..], p, q, r, k - |q|);
        }
      } else {
        ReplaceAvoidsAfterCopy(s, p, q, r, k);
      }
    }
  }

  /** The case of `ReplaceAvoidsAt` where the first element is copied through. */
  lemma {:induction false} ReplaceAvoidsAfterCopy<T>(s: seq<T>, p: seq<T>, q: seq<T>, r: seq<T>, k: int)
    requires |p| > 0 && |q| > 0 && |r| > 0 && |s| > 0 && !StartsWith(s, p)
    requires Unaligned(r[1..], q)
    requires NoStartInside(q, r)
    requires r == p || !Contains(s, r)
    ensures !OccursAt(Replace(s, p, q), r, k)
    decreases |s|, 0
  {
    var rest := Replace(s[1..], p, q);
    assert Replace(s, p, q) == [s[0]] + rest;
    if k == 0 {
      CopiedHeadAvoids(s, p, q, r);
    } else if OccursAt([s[0]] + rest, r, k) {
      if r != p {
        forall i | OccursAt(s[1..], r, i) ensures false { OccursInSuffix(s, r, 1, i); }
      }
      OccursInTail([s[0]], rest, r, k);
      ReplaceAvoidsAt(s[1..], p, q, r, k - 1);
    }
  }

  /** No occurrence of `r` begins at the copied first element. */
  lemma CopiedHeadAvoids<T>(s: seq<T>, p: seq<T>, q: seq<T>, r: seq<T>)
    requires |p| > 0 && |q| > 0 && |r| > 0 && |s| > 0 && !StartsWith(s, p)
    requires Unaligned(r[1..], q)
    requires r == p || !Contains(s, r)
    ensures !OccursAt(Replace(s, p, q), r, 0)
  {
    var t := Replace(s, p, q);
    assert StartsWith(t, r) ==> StartsWith(s, r) by {
      var rest := Replace(s[1..], p, q);
      assert t == [s[0]] + rest;
      ReplacePrefixBack(s[1..], p, q, r[1..]);
      StartsWithCons(s[0], rest, r);
      StartsWithCons(s[0], s[1..], r);
      assert [s[0]] + s[1..] == s;
    }
    assert OccursAt(s, r, 0) == StartsWith(s, r);
    assert OccursAt(t, r, 0) == StartsWith(t, r);
  }

  /** A sequence with a known first element starts with `w` when its head and tail match. */
  lemma StartsWithCons<T>(x: T, t: seq<T>, w: seq<T>)
    requires |w| > 0
    ensures StartsWith([x] + t, w) <==> x == w[0] && StartsWith(t, w[1..])
  {
    if |w| <= |t| + 1 {
      assert ([x] + t)[..|w|] == [x] + t[..|w| - 1];
    }
  }

  /** After `s.replace(p, q)` the text `r` does not occur, provided `r` cannot be
      assembled from the replacement text, and either `r` is the replaced pattern
      itself or `r` did not occur before. */
  lemma ReplaceAvoids<T>(s: seq<T>, p: seq<T>, q: seq<T>, r: seq<T>)
    requires |p| > 0 && |q| > 0 && |r| > 0
    requires q[0] !in r[1..]
    requires NoStartInside(q, r)
    requires r == p || !Contains(s, r)
    ensures !Contains(Replace(s, p, q), r)
  {
    UnalignedByHead(r[1..], q);
    ReplaceAvoidsUnaligned(s, p, q, r);
  }

  /** `ReplaceAvoids` where the replacement text may share its first element with
      `r`, as long as no copy of it can line up with a proper suffix of `r`. */
  lemma ReplaceAvoidsUnaligned<T>(s: seq<T>, p: seq<T>, q: seq<T>, r: seq<T>)
    requires |p| > 0 && |q| > 0 && |r| > 0
    requires Unaligned(r[1..], q)
    requires NoStartInside(q, r)
    requires r == p || !Contains(s, r)
    ensures !Contains(Replace(s, p, q), r)
  {
    forall k ensures !OccursAt(Replace(s, p, q), r, k) {
      ReplaceAvoidsAt(s, p, q, r, k);
    }
  }

  /** A leading block inside which `p` cannot begin is copied through unchanged. */
  lemma ReplaceCopiesBlock<T>(w: seq<T>, t: seq<T>, p: seq<T>, q: seq<T>)
    requires |p| > 0 && NoStartInside(w, p)
    ensures Replace(w + t, p, q) == w + Replace(t, p, q)
  {
    forall i | 0 <= i < |w| ensures !OccursAt(w + t, p, i) {
      if OccursAt(w + t, p, i) {
        OccursInHead(w, t, p, i);
      }
    }
    ReplaceAfterRaw(w, t, p, q);
  }
}
