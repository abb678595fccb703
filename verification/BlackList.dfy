/** Black listing (blacklst.c): bit tables over the addresses of heap blocks, hashed, and the search for
 *  a block that is not black listed.  Blocks are known by number, that is, address over HBLKSIZE.
 */
module BlackList {
  const WORDSZ: nat := 64

  // A word of a table, as an unsigned number; (w >> k) & 1
  predicate Bit(w: nat, k: nat) {
    if k == 0 then w % 2 == 1 else Bit(w / 2, k - 1)
  }

  // w | (1 << k)
  function SetBit(w: nat, k: nat): nat {
    if k == 0 then w + 1 - w % 2 else w % 2 + 2 * SetBit(w / 2, k - 1)
  }

  lemma {:induction false} ZeroBit(k: nat)
    ensures !Bit(0, k)
  {
    if k > 0 { ZeroBit(k - 1); }
  }

  lemma {:induction false} SetBitSets(w: nat, k: nat, j: nat)
    ensures Bit(SetBit(w, k), j) <==> j == k || Bit(w, j)
  {
    if k > 0 && j > 0 {
      SetBitSets(w / 2, k - 1, j - 1);
      assert SetBit(w, k) / 2 == SetBit(w / 2, k - 1);
    } else if k > 0 {
      assert SetBit(w, k) % 2 == w % 2;
    } else if j > 0 {
      assert SetBit(w, k) / 2 == w / 2;
    }
  }

  // get_pht_entry_from_index
  predicate Entry(bl: seq<nat>, index: nat)
    requires index < |bl| * WORDSZ
  {
    Bit(bl[index / WORDSZ], index % WORDSZ)
  }

  // PHT_HASH of a block, for tables of n words.
  function Hash(h: nat, n: nat): (index: nat)
    requires n > 0
    ensures index < n * WORDSZ
  {
    h % (n * WORDSZ)
  }

  // The hash values of the blocks within a word of the table are consecutive.
  lemma HashAhead(h: nat, n: nat, j: nat)
    requires n > 0 && Hash(h, n) % WORDSZ + j < WORDSZ
    ensures Hash(h + j, n) / WORDSZ == Hash(h, n) / WORDSZ
    ensures Hash(h + j, n) == Hash(h, n) + j
  {
    var i := Hash(h, n);
    assert i / WORDSZ < n && i == i / WORDSZ * WORDSZ + i % WORDSZ;
    assert i + j < n * WORDSZ;
    ModAhead(h, n * WORDSZ, j);
  }

  lemma ModAhead(x: nat, m: nat, j: nat)
    requires m > 0 && x % m + j < m
    ensures (x + j) % m == x % m + j
  {
    assert x == x / m * m + x % m;
    ModUnique(x + j, x / m, m, x % m + j);
  }

  lemma ModUnique(x: nat, d: nat, m: nat, r: nat)
    requires x == d * m + r && r < m
    ensures x % m == r
  {
    var e, s := x / m, x % m;
    if e < d {
      MulGrows(e + 1, d, m);
    } else if e > d {
      MulGrows(d + 1, e, m);
    }
  }

  lemma MulGrows(a: nat, b: nat, m: nat)
    requires a <= b
    ensures a * m <= b * m
  {
    assert b * m == a * m + (b - a) * m;
  }

  class BlackLists {
    const allInterior: bool        // GC_all_interior_pointers
    const n: nat                   // words in each table
    var oldNormal: array<nat>
    var newNormal: array<nat>     // GC_incomplete_normal_bl
    var oldStack: array<nat>
    var newStack: array<nat>      // GC_incomplete_stack_bl

    ghost predicate Valid()
      reads this
    {
      && n > 0
      && oldNormal.Length == n && newNormal.Length == n && oldStack.Length == n && newStack.Length == n
      && oldNormal != newNormal && oldNormal != oldStack && oldNormal != newStack
      && newNormal != oldStack && newNormal != newStack && oldStack != newStack
    }

    constructor (words: nat, interior: bool)
      requires words > 0
      ensures Valid() && n == words && allInterior == interior
      ensures forall h :: !NormalBit(h) && !StackBit(h)
      ensures fresh(oldNormal) && fresh(newNormal) && fresh(oldStack) && fresh(newStack)
    {
      allInterior, n := interior, words;
      oldNormal := new nat[words](_ => 0);
      newNormal := new nat[words](_ => 0);
      oldStack := new nat[words](_ => 0);
      newStack := new nat[words](_ => 0);
      new;
      forall h ensures !NormalBit(h) && !StackBit(h) {
        ZeroBit(Hash(h, n) % WORDSZ);
      }
    }

    ghost predicate NormalBit(h: nat)
      requires Valid()
      reads this, oldNormal, newNormal
    {
      Entry(oldNormal[..], Hash(h, n)) || Entry(newNormal[..], Hash(h, n))
    }

    ghost predicate StackBit(h: nat)
      requires Valid()
      reads this, oldStack, newStack
    {
      Entry(oldStack[..], Hash(h, n)) || Entry(newStack[..], Hash(h, n))
    }

    // A run of len blocks that starts at h is black listed: bit by bit.
    ghost predicate Listed(h: nat, len: nat)
      requires Valid()
      reads this, oldNormal, newNormal, oldStack, newStack
    {
      || (!allInterior && NormalBit(h))
      || exists b :: h <= b < h + len && StackBit(b)
    }

    // Two empty words of the tables tell about all blocks up to the next word boundary.
    lemma SkipWord(x: nat)
      requires Valid()
      requires oldStack[Hash(x, n) / WORDSZ] == 0 && newStack[Hash(x, n) / WORDSZ] == 0
      ensures forall b :: x <= b < x + WORDSZ - Hash(x, n) % WORDSZ ==> !StackBit(b)
    {
      forall b | x <= b < x + WORDSZ - Hash(x, n) % WORDSZ ensures !StackBit(b) {
        HashAhead(x, n, b - x);
        ZeroBit(Hash(b, n) % WORDSZ);
      }
    }

    // GC_is_black_listed, for a run of at least one block.
    method IsBlackListed(h: nat, len: nat) returns (r: nat)
      requires Valid() && h > 0 && len > 0
      ensures r == 0 <==> !Listed(h, len)
      ensures r != 0 ==> h < r <= h + len && forall s :: h <= s < r ==> Listed(s, len)
      ensures r != 0 && !allInterior && NormalBit(h) ==> r == h + 1
      ensures r != 0 && (allInterior || !NormalBit(h)) ==>
                StackBit(r - 1) && forall b :: h <= b < r - 1 ==> !StackBit(b)
    {
      var index := Hash(h, n);
      if !allInterior && (Entry(oldNormal[..], index) || Entry(newNormal[..], index)) {
        return h + 1;
      }
      var i := 0;
      hide Hash;
      while true
        invariant 0 <= i < len && index == Hash(h + i, n)
        invariant forall b :: h <= b < h + i ==> !StackBit(b)
        decreases len - i
      {
        if oldStack[index / WORDSZ] == 0 && newStack[index / WORDSZ] == 0 {
          SkipWord(h + i);
          i := i + WORDSZ - index % WORDSZ;
        } else {
          if Entry(oldStack[..], index) || Entry(newStack[..], index) {
            assert StackBit(h + i);
            return h + i + 1;
          }
          i := i + 1;
        }
        if i >= len {
          break;
        }
        index := Hash(h + i, n);
      }
      r := 0;
    }

    // The search of GC_allochblk_nth: the first start in h..end of a run that is not black listed,
    // or some place beyond end.
    method FirstUsable(h: nat, end: nat, len: nat) returns (r: nat)
      requires Valid() && 0 < h <= end && len > 0
      ensures h <= r <= end + len
      ensures forall s :: h <= s < r ==> Listed(s, len)
      ensures r <= end ==> !Listed(r, len)
    {
      r := h;
      while r <= end
        invariant h <= r <= end + len
        invariant forall s :: h <= s < r ==> Listed(s, len)
        decreases end + len - r
      {
        var next := IsBlackListed(r, len);
        if next == 0 {
          break;
        }
        r := next;
      }
    }

    // GC_promote_black_lists: what was found since the last promotion counts from now on, what was found
    // before it is forgotten.
    method Promote()
      requires Valid()
      modifies this, oldNormal, oldStack
      ensures Valid() && newNormal == old(oldNormal) && newStack == old(oldStack)
      ensures forall h :: StackBit(h) <==> old(Entry(newStack[..], Hash(h, n)))
      ensures !allInterior ==> forall h :: NormalBit(h) <==> old(Entry(newNormal[..], Hash(h, n)))
      ensures oldStack[..] == old(newStack[..]) && oldNormal[..] == old(newNormal[..])
      ensures forall h :: !Entry(newStack[..], Hash(h, n)) && (!allInterior ==> !Entry(newNormal[..], Hash(h, n)))
      ensures allInterior ==> newNormal[..] == old(oldNormal[..])
    {
      var veryOldNormal, veryOldStack := oldNormal, oldStack;
      oldNormal := newNormal;
      oldStack := newStack;
      if !allInterior {
        Clear(veryOldNormal);
      }
      Clear(veryOldStack);
      newNormal := veryOldNormal;
      newStack := veryOldStack;
      forall h ensures !Entry(newStack[..], Hash(h, n)) {
        assert newStack[..][Hash(h, n) / WORDSZ] == 0;
        ZeroBit(Hash(h, n) % WORDSZ);
      }
      if !allInterior {
        forall h ensures !Entry(newNormal[..], Hash(h, n)) {
          assert newNormal[..][Hash(h, n) / WORDSZ] == 0;
          ZeroBit(Hash(h, n) % WORDSZ);
        }
      }
    }

    // GC_add_to_black_list_stack, for a false pointer into block h: its hash class is found again if the block has no
    // header or the class was found before the last promotion.  Promote keeps what is found again.
    method AddStack(h: nat, headerless: bool)
      requires Valid()
      modifies newStack
      ensures forall b :: Entry(newStack[..], Hash(b, n)) <==>
                          || old(Entry(newStack[..], Hash(b, n)))
                          || ((headerless || old(Entry(oldStack[..], Hash(h, n)))) && Hash(b, n) == Hash(h, n))
      ensures forall b :: StackBit(b) <==> old(StackBit(b)) || (headerless && Hash(b, n) == Hash(h, n))
    {
      var index := Hash(h, n);
      if headerless || Entry(oldStack[..], index) {
        var w, k := index / WORDSZ, index % WORDSZ;
        ghost var before := newStack[..];
        newStack[w] := SetBit(newStack[w], k);
        forall b ensures Entry(newStack[..], Hash(b, n)) <==> Entry(before, Hash(b, n)) || Hash(b, n) == index {
          var x := Hash(b, n);
          SetBitSets(before[w], k, x % WORDSZ);
        }
      }
    }
  }

  // BZERO
  method Clear(a: array<nat>)
    modifies a
    ensures forall i :: 0 <= i < a.Length ==> a[i] == 0
  {
    for i := 0 to a.Length
      invariant forall j :: 0 <= j < i ==> a[j] == 0
    {
      a[i] := 0;
    }
  }
}
