/** Ranges of addresses, and the bytes that a list of them covers. */
module Ranges {
  datatype Range = Range(start: nat, end: nat)

  predicate Within(r: Range, x: nat) {
    r.start <= x < r.end
  }

  ghost predicate Covered(s: seq<Range>, x: nat) {
    exists i :: 0 <= i < |s| && Within(s[i], x)
  }

  lemma CoveredBoth(a: seq<Range>, b: seq<Range>, x: nat)
    ensures Covered(a + b, x) <==> Covered(a, x) || Covered(b, x)
  {
    if Covered(a, x) {
      var i :| 0 <= i < |a| && Within(a[i], x);
      assert (a + b)[i] == a[i];
    }
    if Covered(b, x) {
      var i :| 0 <= i < |b| && Within(b[i], x);
      assert (a + b)[|a| + i] == b[i];
    }
    if Covered(a + b, x) {
      var i :| 0 <= i < |a + b| && Within((a + b)[i], x);
      assert if i < |a| then Within(a[i], x) else Within(b[i - |a|], x);
    }
  }

  lemma CoveredOne(r: Range, x: nat)
    ensures Covered([r], x) <==> Within(r, x)
  {
    assert [r][0] == r;
  }

  lemma CoveredLast(s: seq<Range>, r: Range, x: nat)
    ensures Covered(s + [r], x) <==> Covered(s, x) || Within(r, x)
  {
    CoveredBoth(s, [r], x);
    CoveredOne(r, x);
  }
}
