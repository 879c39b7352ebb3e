/** The scans the converters run over raw file contents or decoded text: the
    payload between two markers, and the JSON object cut from the first `{` to
    the last `}` with `find`/`rfind`. */
module Scan {
  import opened Wrappers
  import opened Text

  /** `find` of a one-element pattern is the first index holding that element. */
  lemma FindElem<T>(s: seq<T>, x: T, from: nat)
    ensures Find(s, [x], from) == -1 ==> forall i :: from <= i < |s| ==> s[i] != x
    ensures Find(s, [x], from) != -1 ==> from <= Find(s, [x], from) < |s| && s[Find(s, [x], from)] == x
    ensures forall i :: from <= i < |s| && (Find(s, [x], from) == -1 || i < Find(s, [x], from)) ==> s[i] != x
  {
    var r := Find(s, [x], from);
    forall i | from <= i < |s| && (r == -1 || i < r) ensures s[i] != x {
      assert !OccursAt(s, [x], i);
      assert s[i..i + 1] == [s[i]];
    }
    if r != -1 {
      assert OccursAt(s, [x], r);
      assert s[r..r + 1][0] == s[r];
    }
  }

  /** The payload between the first `start` marker and the first `end` marker
      after it, as the pair (index after `start`, index of `end`). */
  function Between<T(==)>(s: seq<T>, start: seq<T>, end: seq<T>): (r: Option<(nat, nat)>)
    ensures r.None? <==> Find(s, start, 0) == -1 || forall i :: Find(s, start, 0) + |start| <= i ==> !OccursAt(s, end, i)
    ensures r.Some? ==> var (a, e) := r.value;
      && |start| <= a <= e && e + |end| <= |s|
      && OccursAt(s, start, a - |start|)
      && (forall i :: 0 <= i < a - |start| ==> !OccursAt(s, start, i))
      && OccursAt(s, end, e)
      && (forall i :: a <= i < e ==> !OccursAt(s, end, i))
  {
    var m := Find(s, start, 0);
    if m == -1 then None
    else
      var e := Find(s, end, m + |start|);
      if e == -1 then None else Some((m + |start|, e))
  }

  /** The payload placed between the markers is found, when `start` first
      occurs there and `end` does not occur inside the payload. */
  lemma BetweenPlaced<T>(pre: seq<T>, start: seq<T>, body: seq<T>, end: seq<T>, post: seq<T>)
    requires forall i :: 0 <= i < |pre| ==> !OccursAt(pre + start + body + end + post, start, i)
    requires forall i :: |pre| + |start| <= i < |pre| + |start| + |body| ==> !OccursAt(pre + start + body + end + post, end, i)
    ensures Between(pre + start + body + end + post, start, end) == Some((|pre| + |start|, |pre| + |start| + |body|))
  {
    var s := pre + start + body + end + post;
    var a := |pre| + |start|;
    assert s[|pre|..a] == start;
    FindFirst(s, start, 0, |pre|);
    assert s[a + |body|..a + |body| + |end|] == end;
    FindFirst(s, end, a, a + |body|);
    BetweenOfFinds(s, start, end, |pre|, a + |body|);
  }

  lemma BetweenOfFinds<T>(s: seq<T>, start: seq<T>, end: seq<T>, m: nat, e: nat)
    requires Find(s, start, 0) == m && Find(s, end, m + |start|) == e
    ensures Between(s, start, end) == Some((m + |start|, e))
  {
  }

  /** The payload taken through the end marker ends with it and holds no earlier copy of it. */
  lemma SpanThroughEnd<T>(s: seq<T>, end: seq<T>, a: nat, e: nat)
    requires a <= e && e + |end| <= |s| && OccursAt(s, end, e)
    requires forall i :: a <= i < e ==> !OccursAt(s, end, i)
    ensures var c := s[a..e + |end|];
      && |c| >= |end| && c[|c| - |end|..] == end
      && forall i :: 0 <= i < |c| - |end| ==> !OccursAt(c, end, i)
  {
    var c := s[a..e + |end|];
    assert c[|c| - |end|..] == s[e..e + |end|];
    forall i | 0 <= i < |c| - |end| ensures !OccursAt(c, end, i) {
      assert !OccursAt(s, end, a + i);
      var ci, si := c[i..i + |end|], s[a + i..a + i + |end|];
      forall j | 0 <= j < |end| ensures ci[j] == si[j] {
        assert c[i + j] == s[a + i + j];
      }
      assert ci == si;
    }
  }

  /** `s[s.find(open):s.rfind(close) + 1]`, guarded by
      `if json_start == -1 or json_end == -1: return None`. */
  function JsonSpan<T(==)>(s: seq<T>, open: T, close: T): (r: Option<seq<T>>)
    ensures r.None? <==> open !in s
    ensures r.Some? && |r.value| > 0 ==> var j := Find(s, [open], 0);
      && 0 <= j && j + |r.value| <= |s| && r.value == s[j..j + |r.value|]
      && r.value[0] == open && r.value[|r.value| - 1] == close
      && open !in s[..j] && close !in s[j + |r.value|..]
    ensures r.Some? && r.value == [] ==>
      forall i, k :: 0 <= i < |s| && 0 <= k < |s| && s[i] == open && s[k] == close ==> k < i
  {
    var jsonStart := Find(s, [open], 0);
    var jsonEnd := RFind(s, close) + 1;
    FindElem(s, open, 0);
    if jsonStart == -1 || jsonEnd == -1 then None
    else if jsonStart < jsonEnd then Some(s[jsonStart..jsonEnd])
    else Some([])
  }

  /** An object preceded by no `open` and followed by no `close` is cut out exactly. */
  lemma JsonSpanPlaced<T>(pre: seq<T>, body: seq<T>, post: seq<T>, open: T, close: T)
    requires open !in pre && close !in post
    requires |body| > 0 && body[0] == open && body[|body| - 1] == close
    ensures JsonSpan(pre + body + post, open, close) == Some(body)
  {
    var s := pre + body + post;
    FindElem(s, open, 0);
    assert s[|pre|] == open;
    var j := Find(s, [open], 0);
    assert j == |pre|;
    var k := RFind(s, close);
    assert s[|pre| + |body| - 1] == close;
    assert k == |pre| + |body| - 1;
    assert s[j..k + 1] == body;
  }
}
