/** What several parts of the model have in common. */
module Common {
  // The size of a heap block in bytes.
  const HBLKSIZE: nat := 4096

  // What the objects of a heap block are.
  datatype Kind = PtrFree | Normal | Uncollectable | AtomicUncollectable {
    predicate HasDescr() { Normal? || Uncollectable? }

    predicate IsUncollectable() { Uncollectable? || AtomicUncollectable? }
  }

  ghost predicate Distinct(s: seq<nat>) {
    forall i, j :: 0 <= i < j < |s| ==> s[i] != s[j]
  }
}
