/** Making a heap block into a list of free objects (new_hblk.c): the general loop, and the ones written out for
 *  objects of two and four words.  A word that holds the address of word k of the block holds base + k.
 */
module ObjectLists {
  import opened Arithmetic

  const BLOCK_WORDS: nat := 512

  // Word k of the block afterwards: the first word of every object but the first holds the address of the object
  // before it, that of the first one the rest of the list; other words are cleared, or stay.
  function Linked(sz: nat, base: nat, list: nat, clear: bool, was: nat, k: nat): nat
    requires sz > 0
  {
    if k == 0 then list
    else if k % sz == 0 && k + sz <= BLOCK_WORDS then base + k - sz
    else if clear then 0 else was
  }

  // The last object of a block.
  function LastObject(sz: nat): int
    requires sz > 0
  {
    (BLOCK_WORDS / sz - 1) * sz
  }

  ghost predicate Built(sz: nat, base: nat, list: nat, clear: bool, was: seq<nat>, words: seq<nat>)
    requires sz > 0
  {
    && |was| == BLOCK_WORDS && |words| == BLOCK_WORDS
    && forall k :: 0 <= k < BLOCK_WORDS ==> words[k] == Linked(sz, base, list, clear, was[k], k)
  }

  // Objects in the order in which a list that starts at address p meets them: n of them in the block, then the rest.
  ghost predicate Chain(words: seq<nat>, sz: nat, base: nat, list: nat, p: int, n: nat)
    requires |words| == BLOCK_WORDS && sz > 0
    decreases n
  {
    if n == 0 then p == list
    else
      base <= p < base + BLOCK_WORDS && p == base + (n - 1) * sz
      && Chain(words, sz, base, list, words[p - base], n - 1)
  }

  // The list leads through all objects of the block, from the last to the first, and then on to the old list.
  lemma {:induction false} BuiltChain(sz: nat, base: nat, list: nat, clear: bool, was: seq<nat>, words: seq<nat>,
                                      n: nat)
    requires 0 < sz && Built(sz, base, list, clear, was, words) && 0 < n && n * sz <= BLOCK_WORDS
    ensures Chain(words, sz, base, list, base + (n - 1) * sz, n)
  {
    var k := (n - 1) * sz;
    assert n * sz == k + sz;
    LinkOf(sz, base, list, clear, was, words, n);
    if n == 1 {
      assert Chain(words, sz, base, list, words[k], 0);
    } else {
      BuiltChain(sz, base, list, clear, was, words, n - 1);
    }
  }

  // Object number n - 1 links to the one before it, and the first to the old list.
  lemma LinkOf(sz: nat, base: nat, list: nat, clear: bool, was: seq<nat>, words: seq<nat>, n: nat)
    requires 0 < sz && Built(sz, base, list, clear, was, words) && 0 < n && (n - 1) * sz + sz <= BLOCK_WORDS
    ensures words[(n - 1) * sz] == if n == 1 then list else base + (n - 2) * sz
  {
    var k := (n - 1) * sz;
    assert words[k] == Linked(sz, base, list, clear, was[k], k);
    if n > 1 {
      Multiples(0, n - 1, sz);
      Quotient(k, sz, n - 1);
      assert k - sz == (n - 2) * sz;
    }
  }

  // The list that starts at the last object is that of all objects for which there is room.
  lemma WholeChain(sz: nat, base: nat, list: nat, clear: bool, was: seq<nat>, words: seq<nat>)
    requires 0 < sz <= BLOCK_WORDS && Built(sz, base, list, clear, was, words)
    ensures var n := BLOCK_WORDS / sz;
            n > 0 && n * sz <= BLOCK_WORDS < n * sz + sz && Chain(words, sz, base, list, base + LastObject(sz), n)
  {
    var n := BLOCK_WORDS / sz;
    DivMod(BLOCK_WORDS, sz);
    Positive(n, sz);
    BuiltChain(sz, base, list, clear, was, words, n);
  }

  lemma Positive(n: nat, sz: nat)
    requires 0 < sz <= BLOCK_WORDS < n * sz + sz
    ensures n > 0
  {
  }

  // The words of object i, and which of them is the first.
  lemma FirstWord(sz: nat, i: nat, k: nat)
    requires sz > 0 && i * sz <= k < i * sz + sz
    ensures k % sz == 0 <==> k == i * sz
  {
    Quotient(k, sz, i);
  }

  // GC_build_fl_clear2
  method BuildClear2(h: array<nat>, base: nat, ofl: nat) returns (r: nat)
    requires h.Length == BLOCK_WORDS
    modifies h
    ensures Built(2, base, ofl, true, old(h[..]), h[..]) && r == base + LastObject(2)
  {
    h[0], h[1], h[2], h[3] := ofl, 0, base, 0;
    var p := 4;
    while p < BLOCK_WORDS
      invariant 4 <= p <= BLOCK_WORDS && p % 4 == 0
      invariant forall k :: 0 <= k < p ==> h[k] == Linked(2, base, ofl, true, old(h[k]), k)
    {
      h[p], h[p + 1], h[p + 2], h[p + 3] := base + p - 2, 0, base + p, 0;
      p := p + 4;
    }
    r := base + p - 2;
  }

  // GC_build_fl_clear4
  method BuildClear4(h: array<nat>, base: nat, ofl: nat) returns (r: nat)
    requires h.Length == BLOCK_WORDS
    modifies h
    ensures Built(4, base, ofl, true, old(h[..]), h[..]) && r == base + LastObject(4)
  {
    h[0], h[1], h[2], h[3] := ofl, 0, 0, 0;
    var p := 4;
    while p < BLOCK_WORDS
      invariant 4 <= p <= BLOCK_WORDS && p % 4 == 0
      invariant forall k :: 0 <= k < p ==> h[k] == Linked(4, base, ofl, true, old(h[k]), k)
    {
      h[p], h[p + 1] := base + p - 4, 0;
      h[p + 2], h[p + 3] := 0, 0;
      p := p + 4;
    }
    r := base + p - 4;
  }

  // GC_build_fl2
  method Build2(h: array<nat>, base: nat, ofl: nat) returns (r: nat)
    requires h.Length == BLOCK_WORDS
    modifies h
    ensures Built(2, base, ofl, false, old(h[..]), h[..]) && r == base + LastObject(2)
  {
    h[0], h[2] := ofl, base;
    var p := 4;
    while p < BLOCK_WORDS
      invariant 4 <= p <= BLOCK_WORDS && p % 4 == 0
      invariant forall k :: 0 <= k < p ==> h[k] == Linked(2, base, ofl, false, old(h[k]), k)
      invariant forall k :: p <= k < BLOCK_WORDS ==> h[k] == old(h[k])
    {
      h[p], h[p + 2] := base + p - 2, base + p;
      p := p + 4;
    }
    r := base + p - 2;
  }

  // GC_build_fl4
  method Build4(h: array<nat>, base: nat, ofl: nat) returns (r: nat)
    requires h.Length == BLOCK_WORDS
    modifies h
    ensures Built(4, base, ofl, false, old(h[..]), h[..]) && r == base + LastObject(4)
  {
    h[0], h[4] := ofl, base;
    var p := 8;
    while p < BLOCK_WORDS
      invariant 8 <= p <= BLOCK_WORDS && p % 8 == 0
      invariant forall k :: 0 <= k < p ==> h[k] == Linked(4, base, ofl, false, old(h[k]), k)
      invariant forall k :: p <= k < BLOCK_WORDS ==> h[k] == old(h[k])
    {
      h[p], h[p + 4] := base + p - 4, base + p;
      p := p + 8;
    }
    r := base + p - 4;
  }

  // GC_build_fl
  method Build(h: array<nat>, base: nat, sz: nat, clear: bool, list: nat) returns (r: nat)
    requires h.Length == BLOCK_WORDS && 0 < sz <= BLOCK_WORDS
    modifies h
    ensures Built(sz, base, list, clear, old(h[..]), h[..]) && r == base + LastObject(sz)
  {
    if sz == 2 {
      if clear { r := BuildClear2(h, base, list); } else { r := Build2(h, base, list); }
    } else if sz == 4 {
      if clear { r := BuildClear4(h, base, list); } else { r := Build4(h, base, list); }
    } else {
      r := BuildAny(h, base, sz, clear, list);
    }
  }

  // The general loop of GC_build_fl, which would do for any size.
  method BuildAny(h: array<nat>, base: nat, sz: nat, clear: bool, list: nat) returns (r: nat)
    requires h.Length == BLOCK_WORDS && 0 < sz <= BLOCK_WORDS
    modifies h
    ensures Built(sz, base, list, clear, old(h[..]), h[..]) && r == base + LastObject(sz)
  {
    if clear {
      forall k | 0 <= k < BLOCK_WORDS { h[k] := 0; }
    }
    StartsFirst(sz);
    hide Linked, LastObject, Starts;
    var p, prev, lastObject: int := sz, 0, BLOCK_WORDS - sz;
    ghost var i := 1;
    forall k | 0 < k < sz ensures Linked(sz, base, list, clear, old(h[..])[k], k) == if clear then 0 else old(h[k]) {
      NotFirst(sz, base, list, clear, old(h[k]), 0, 0, k);
    }
    while p <= lastObject
      invariant i >= 1 && Starts(sz, i, p) && prev == p - sz && prev <= lastObject
      invariant forall k :: 0 < k < p && k < BLOCK_WORDS ==> h[k] == Linked(sz, base, list, clear, old(h[..])[k], k)
      invariant forall k :: p <= k < BLOCK_WORDS ==> h[k] == if clear then 0 else old(h[k])
      decreases BLOCK_WORDS - p
    {
      First(sz, base, list, clear, old(h[p]), i, p);
      forall k | p < k < p + sz && k < BLOCK_WORDS
        ensures Linked(sz, base, list, clear, old(h[..])[k], k) == if clear then 0 else old(h[k])
      {
        NotFirst(sz, base, list, clear, old(h[k]), i, p, k);
      }
      StartsNext(sz, i, p);
      h[p] := base + prev;
      prev := p;
      p := p + sz;
      i := i + 1;
    }
    forall k | p <= k < BLOCK_WORDS
      ensures Linked(sz, base, list, clear, old(h[..])[k], k) == if clear then 0 else old(h[k])
    {
      NoRoom(sz, base, list, clear, old(h[k]), k);
    }
    WhereLast(sz, i, p);
    p := p - sz;
    h[0] := list;
    IsFirst(sz, base, list, clear, old(h[0]));
    r := base + p;
  }

  // Object i starts at word p.
  ghost predicate Starts(sz: nat, i: nat, p: int) {
    p == i * sz
  }

  lemma StartsFirst(sz: nat)
    ensures Starts(sz, 0, 0) && Starts(sz, 1, sz)
  {
  }

  lemma StartsNext(sz: nat, i: nat, p: int)
    requires Starts(sz, i, p)
    ensures Starts(sz, i + 1, p + sz)
  {
    assert (i + 1) * sz == i * sz + sz;
  }

  lemma First(sz: nat, base: nat, list: nat, clear: bool, was: nat, i: nat, p: nat)
    requires sz > 0 && i >= 1 && Starts(sz, i, p) && p + sz <= BLOCK_WORDS
    ensures p > 0 && Linked(sz, base, list, clear, was, p) == base + p - sz
  {
    FirstWord(sz, i, i * sz);
    Multiples(0, i, sz);
  }

  lemma NotFirst(sz: nat, base: nat, list: nat, clear: bool, was: nat, i: nat, p: nat, k: nat)
    requires sz > 0 && Starts(sz, i, p) && p < k < p + sz
    ensures Linked(sz, base, list, clear, was, k) == if clear then 0 else was
  {
    FirstWord(sz, i, k);
  }

  lemma NoRoom(sz: nat, base: nat, list: nat, clear: bool, was: nat, k: nat)
    requires sz > 0 && k > 0 && k + sz > BLOCK_WORDS
    ensures Linked(sz, base, list, clear, was, k) == if clear then 0 else was
  {
  }

  lemma IsFirst(sz: nat, base: nat, list: nat, clear: bool, was: nat)
    requires sz > 0
    ensures Linked(sz, base, list, clear, was, 0) == list
  {
  }

  lemma WhereLast(sz: nat, i: nat, p: int)
    requires 0 < sz && i >= 1 && Starts(sz, i, p) && p <= BLOCK_WORDS < p + sz
    ensures LastObject(sz) == p - sz
  {
    Quotient(BLOCK_WORDS, sz, i);
    assert (i - 1) * sz == i * sz - sz;
  }
}
