/**
 * The prompt history kept by the application: a most-recent-first list of
 * submitted prompts, without duplicates, at most MAX_ENTRIES long. One
 * submission records its prompt with `[p, ...prev.filter(x => x !== p)]`
 * followed by `.slice(0, 20)` (App.tsx, line 51).
 */
module History {

  /** The bound applied by `.slice(0, 20)`. */
  const MAX_ENTRIES: nat := 20

  predicate NoDuplicates(h: seq<string>) {
    forall i, j :: 0 <= i < j < |h| ==> h[i] != h[j]
  }

  /** `a` is obtained from `b` by deleting entries, so `a` keeps the relative
      order its entries have in `b`. */
  ghost predicate IsSubsequence(a: seq<string>, b: seq<string>)
    decreases |b|
  {
    a == [] || (b != [] && (IsSubsequence(a, b[1..]) || (a[0] == b[0] && IsSubsequence(a[1..], b[1..]))))
  }

  /** `h.filter(x => x !== p)`: exact string comparison, no normalisation. */
  function Without(h: seq<string>, p: string): (r: seq<string>)
    ensures |r| <= |h|
    ensures forall x :: x in r <==> x in h && x != p
  {
    if h == [] then []
    else if h[0] == p then Without(h[1..], p)
    else [h[0]] + Without(h[1..], p)
  }

  /** Records a submitted prompt: it becomes the newest entry, any earlier
      occurrence of the same string is removed, and the list is cut to
      MAX_ENTRIES. The recorded prompt is first, exactly as given, and
      occurs nowhere else. */
  function Record(h: seq<string>, p: string): (r: seq<string>)
    ensures 1 <= |r| <= MAX_ENTRIES
    ensures |r| == if |Without(h, p)| < MAX_ENTRIES then |Without(h, p)| + 1 else MAX_ENTRIES
    ensures r[0] == p
    ensures forall i :: 1 <= i < |r| ==> r[i] != p
  {
    var w := Without(h, p);
    assert p !in w;
    var front := [p] + w;
    assert forall i :: 1 <= i < |front| ==> front[i] == w[i - 1];
    if |front| <= MAX_ENTRIES then front else front[..MAX_ENTRIES]
  }

  lemma {:induction false} WithoutConcat(x: seq<string>, y: seq<string>, p: string)
    ensures Without(x + y, p) == Without(x, p) + Without(y, p)
  {
    if x == [] {
      assert x + y == y;
    } else {
      assert (x + y)[0] == x[0] && (x + y)[1..] == x[1..] + y;
      WithoutConcat(x[1..], y, p);
    }
  }

  /** Removing an absent entry changes nothing. */
  lemma {:induction false} WithoutAbsent(h: seq<string>, p: string)
    requires p !in h
    ensures Without(h, p) == h
  {
    if h != [] {
      WithoutAbsent(h[1..], p);
    }
  }

  lemma {:induction false} WithoutIsSubsequence(h: seq<string>, p: string)
    ensures IsSubsequence(Without(h, p), h)
  {
    if h != [] {
      WithoutIsSubsequence(h[1..], p);
      var w := Without(h, p);
      if h[0] != p {
        assert w[0] == h[0] && w[1..] == Without(h[1..], p);
      }
    }
  }

  lemma {:induction false} SubsequencePrefix(a: seq<string>, b: seq<string>, k: nat)
    requires k <= |a| && IsSubsequence(a, b)
    ensures IsSubsequence(a[..k], b)
    decreases |b|
  {
    if k > 0 {
      if IsSubsequence(a, b[1..]) {
        SubsequencePrefix(a, b[1..], k);
      } else {
        SubsequencePrefix(a[1..], b[1..], k - 1);
        assert a[..k][1..] == a[1..][..k - 1];
      }
    }
  }

  lemma {:induction false} WithoutNoDuplicates(h: seq<string>, p: string)
    requires NoDuplicates(h)
    ensures NoDuplicates(Without(h, p))
  {
    if h != [] {
      WithoutNoDuplicates(h[1..], p);
      if h[0] != p {
        assert h[0] !in h[1..];
      }
    }
  }

  /** After recording, the entries other than the new first one appear in
      the same relative order as in the previous history. */
  lemma RecordKeepsOrder(h: seq<string>, p: string)
    ensures IsSubsequence(Record(h, p)[1..], h)
  {
    var r := Record(h, p);
    var w := Without(h, p);
    WithoutIsSubsequence(h, p);
    assert r[1..] == w[..|r| - 1];
    SubsequencePrefix(w, h, |r| - 1);
  }

  /** A history without duplicates stays without duplicates. */
  lemma RecordPreservesNoDuplicates(h: seq<string>, p: string)
    requires NoDuplicates(h)
    ensures NoDuplicates(Record(h, p))
  {
    WithoutNoDuplicates(h, p);
    var r := Record(h, p);
    assert r[1..] == Without(h, p)[..|r| - 1];
  }

  /** While there is room, nothing is evicted: the new history holds exactly
      the recorded prompt and the previous entries. */
  lemma RecordKeepsAllWhenRoom(h: seq<string>, p: string)
    requires |Without(h, p)| < MAX_ENTRIES
    ensures |Record(h, p)| == |Without(h, p)| + 1
    ensures forall x :: x in Record(h, p) <==> x == p || x in h
  {
  }

  /** Position of entry h[i] inside Without(h, p). */
  lemma WithoutAt(h: seq<string>, p: string, i: nat)
    requires i < |h| && h[i] != p
    ensures |Without(h[..i], p)| < |Without(h, p)|
    ensures Without(h, p)[|Without(h[..i], p)|] == h[i]
  {
    assert h == h[..i] + h[i..];
    WithoutConcat(h[..i], h[i..], p);
    assert h[i..][0] == h[i] && h[i..][1..] == h[i + 1..];
  }

  lemma WithoutPositionsIncrease(h: seq<string>, p: string, i: nat, j: nat)
    requires i < j <= |h| && h[i] != p
    ensures |Without(h[..i], p)| < |Without(h[..j], p)|
  {
    assert h[..j] == h[..i] + h[i..j];
    WithoutConcat(h[..i], h[i..j], p);
    assert h[i..j][0] == h[i] && h[i..j][1..] == h[i + 1..j];
  }

  /** Only the oldest entries are evicted: if an older entry h[j] survives
      the cut, every newer entry h[i] survives as well. */
  lemma RecordEvictsOldest(h: seq<string>, p: string, i: nat, j: nat)
    requires NoDuplicates(h)
    requires i < j < |h| && h[i] != p && h[j] != p
    requires h[j] in Record(h, p)
    ensures h[i] in Record(h, p)
  {
    var r := Record(h, p);
    var w := Without(h, p);
    var c := |r| - 1;
    assert r[1..] == w[..c];
    WithoutNoDuplicates(h, p);
    WithoutAt(h, p, i);
    WithoutAt(h, p, j);
    WithoutPositionsIncrease(h, p, i, j);
    var pj := |Without(h[..j], p)|;
    var q :| 1 <= q < |r| && r[q] == h[j];
    assert w[q - 1] == h[j] == w[pj];
    var pi := |Without(h[..i], p)|;
    assert r[pi + 1] == w[pi] == h[i];
  }

  /** Exactly the newest entries survive the cut: an entry other than the
      prompt is kept when fewer than MAX_ENTRIES - 1 kept entries precede
      it, and (in a history without duplicates) only then. */
  lemma RecordKeepsNewest(h: seq<string>, p: string, i: nat)
    requires i < |h| && h[i] != p
    ensures |Without(h[..i], p)| < MAX_ENTRIES - 1 ==> h[i] in Record(h, p)
    ensures NoDuplicates(h) && h[i] in Record(h, p) ==> |Without(h[..i], p)| < MAX_ENTRIES - 1
  {
    var r := Record(h, p);
    var w := Without(h, p);
    var k := |Without(h[..i], p)|;
    WithoutAt(h, p, i);
    assert r[1..] == w[..|r| - 1];
    if k < MAX_ENTRIES - 1 {
      assert r[k + 1] == w[k];
    }
    if NoDuplicates(h) && h[i] in r {
      WithoutNoDuplicates(h, p);
      var q :| 1 <= q < |r| && r[q] == h[i];
      assert w[q - 1] == h[i] == w[k];
    }
  }

  /** Recording the same prompt twice is the same as recording it once. */
  lemma RecordIdempotent(h: seq<string>, p: string)
    ensures Record(Record(h, p), p) == Record(h, p)
  {
    var r := Record(h, p);
    assert r == [p] + r[1..];
    WithoutConcat([p], r[1..], p);
    WithoutAbsent(r[1..], p);
  }

  /** Resubmitting an entry moves it to the front and leaves the others in
      place: history a + [p] + c becomes [p] + a + c. */
  lemma RecordMovesToFront(a: seq<string>, p: string, c: seq<string>)
    requires p !in a && p !in c && |a| + |c| < MAX_ENTRIES
    ensures Record(a + [p] + c, p) == [p] + a + c
  {
    WithoutConcat(a + [p], c, p);
    WithoutConcat(a, [p], p);
    WithoutAbsent(a, p);
    WithoutAbsent(c, p);
  }
}
