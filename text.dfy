/** Text as a sequence of extended grapheme clusters, and the few JavaScript
    string and array operations the wrapper relies on (slice, padEnd, join),
    restated over such sequences. */
module GraphemeText {

  /** One extended grapheme cluster; its inner code points are never inspected. */
  type Grapheme = string

  /** A string already segmented into grapheme clusters: its width is its length. */
  type Text = seq<Grapheme>

  datatype Option<+T> = None | Some(value: T)

  datatype Result<+T, +E> = Success(value: T) | Failure(error: E)

  /** `s` ends with `suffix`. */
  predicate EndsWith(s: Text, suffix: Text) {
    |suffix| <= |s| && s[|s| - |suffix|..] == suffix
  }

  lemma EndsWithAppend(a: Text, b: Text)
    ensures EndsWith(a + b, b)
  {
    assert (a + b)[|a + b| - |b|..] == b;
  }

  /** How Array.prototype.slice normalises an index: a negative index counts
      from the end, and the result is clamped to [0, len]. */
  function ClampIndex(i: int, len: nat): (r: nat)
    ensures r <= len
  {
    if i < 0 then (if len + i < 0 then 0 else len + i)
    else if i > len then len
    else i
  }

  /** `s.slice(start, end)` for an array of graphemes. */
  function Slice(s: Text, start: int, end: int): (r: Text)
    ensures |r| <= |s|
  {
    var from := ClampIndex(start, |s|);
    var to := ClampIndex(end, |s|);
    if from < to then s[from..to] else []
  }

  /** Within bounds a slice is the plain subsequence; an end past the last
      grapheme stops at the last one; a negative end counts from the end. */
  lemma SliceCases(s: Text, start: int, end: int)
    ensures 0 <= start <= end <= |s| ==> Slice(s, start, end) == s[start..end]
    ensures 0 <= start <= |s| <= end ==> Slice(s, start, end) == s[start..]
    ensures start == 0 && end < 0 && -end <= |s| ==> Slice(s, start, end) == s[..|s| + end]
    ensures start >= end >= 0 ==> Slice(s, start, end) == []
  {
  }

  /** `''.padEnd(target, fill)`: `fill` repeated and cut to `target` units;
      nothing when the target is not positive or the fill is empty. */
  function PadEnd(target: int, fill: Text): (r: Text)
    ensures |r| == if target <= 0 || fill == [] then 0 else target
    ensures forall i :: 0 <= i < |r| ==> r[i] == fill[i % |fill|]
    decreases if target < 0 then 0 else target
  {
    if target <= 0 || fill == [] then []
    else PadEnd(target - 1, fill) + [fill[(target - 1) % |fill|]]
  }

  /** All texts, one after the other. */
  function Concat(ts: seq<Text>): (r: Text)
  {
    if ts == [] then [] else Concat(ts[..|ts| - 1]) + ts[|ts| - 1]
  }

  lemma {:induction false} ConcatAppend(a: seq<Text>, b: seq<Text>)
    ensures Concat(a + b) == Concat(a) + Concat(b)
    decreases |b|
  {
    if b == [] {
      assert a + b == a;
    } else {
      assert (a + b)[..|a + b| - 1] == a + b[..|b| - 1];
      ConcatAppend(a, b[..|b| - 1]);
    }
  }

  lemma ConcatSingle(t: Text)
    ensures Concat([t]) == t
  {
    assert [t][..0] == [];
  }

  /** `Array.prototype.join(sep)`: the separator between consecutive texts,
      none before the first and none after the last. */
  function Join(ts: seq<Text>, sep: Text): (r: Text)
  {
    if ts == [] then []
    else if |ts| == 1 then ts[0]
    else Join(ts[..|ts| - 1], sep) + sep + ts[|ts| - 1]
  }

  /** The summed width of a sequence of texts. */
  function TotalLength(ts: seq<Text>): nat
  {
    if ts == [] then 0 else TotalLength(ts[..|ts| - 1]) + |ts[|ts| - 1]|
  }

  /** A join holds every text and exactly one separator between each
      neighbouring pair, and (when there is anything to join) it ends with the
      last text, not with a separator. */
  lemma {:induction false} JoinShape(ts: seq<Text>, sep: Text)
    ensures ts != [] ==> |Join(ts, sep)| == TotalLength(ts) + (|ts| - 1) * |sep|
    ensures ts != [] ==> EndsWith(Join(ts, sep), ts[|ts| - 1])
    ensures ts == [] ==> Join(ts, sep) == []
    decreases |ts|
  {
    if |ts| > 1 {
      JoinShape(ts[..|ts| - 1], sep);
      var j := Join(ts, sep);
      assert j == Join(ts[..|ts| - 1], sep) + sep + ts[|ts| - 1];
      assert j[|j| - |ts[|ts| - 1]|..] == ts[|ts| - 1];
    } else if |ts| == 1 {
      assert ts[..0] == [];
      assert Join(ts, sep)[|Join(ts, sep)| - |ts[0]|..] == ts[0];
    }
  }

  /** The texts from the `i`-th on, each preceded by the separator. */
  function Interleave(ts: seq<Text>, sep: Text, i: nat): Text
    decreases |ts| - i
  {
    if i >= |ts| then [] else sep + ts[i] + Interleave(ts, sep, i + 1)
  }

  lemma {:induction false} InterleaveSnoc(ts: seq<Text>, t: Text, sep: Text, i: nat)
    requires i <= |ts|
    ensures Interleave(ts + [t], sep, i) == Interleave(ts, sep, i) + sep + t
    decreases |ts| - i
  {
    var us := ts + [t];
    if i == |ts| {
      assert us[i] == t;
      assert Interleave(us, sep, i) == sep + t + Interleave(us, sep, i + 1);
    } else {
      assert us[i] == ts[i];
      InterleaveSnoc(ts, t, sep, i + 1);
      assert Interleave(us, sep, i) == sep + ts[i] + Interleave(us, sep, i + 1);
    }
  }

  /** Read from the left, a join is the first text followed by every later
      text with the separator before it. */
  lemma {:induction false} JoinFromLeft(ts: seq<Text>, sep: Text)
    requires ts != []
    ensures Join(ts, sep) == ts[0] + Interleave(ts, sep, 1)
    decreases |ts|
  {
    if |ts| > 1 {
      var init := ts[..|ts| - 1];
      JoinFromLeft(init, sep);
      assert ts == init + [ts[|ts| - 1]];
      InterleaveSnoc(init, ts[|ts| - 1], sep, 1);
      assert init[0] == ts[0];
    }
  }
}
