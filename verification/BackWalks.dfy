/** Chains of objects in a backward points-to graph, and how long they are: what the heights of backgraph.c
 *  stand for.
 */
module BackWalks {
  type Obj = nat

  // For every object the objects that point to it.
  type Preds = map<Obj, seq<Obj>>

  ghost predicate Edge(preds: Preds, q: Obj, p: Obj) {
    p in preds && q in preds && q in preds[p]
  }

  ghost predicate StepAt(preds: Preds, w: seq<Obj>, i: nat) {
    i + 1 < |w| ==> Edge(preds, w[i], w[i + 1])
  }

  // A chain of objects, each pointing to the next.
  ghost predicate Walk(preds: Preds, w: seq<Obj>) {
    && w != [] && (forall i :: 0 <= i < |w| ==> w[i] in preds)
    && forall i: nat :: i < |w| ==> StepAt(preds, w, i)
  }

  ghost predicate WalkFromTo(preds: Preds, w: seq<Obj>, a: Obj, b: Obj) {
    Walk(preds, w) && w[0] == a && w[|w| - 1] == b
  }

  ghost predicate Leads(preds: Preds, a: Obj, b: Obj) {
    exists w :: WalkFromTo(preds, w, a, b)
  }

  // No object leads back to itself.
  ghost predicate Acyclic(preds: Preds) {
    forall a, b :: Edge(preds, a, b) ==> !Leads(preds, b, a)
  }

  // How high the last object of a chain is because of it: the first one starts from its own base.
  ghost function Height(base: map<Obj, nat>, w: seq<Obj>): nat
    requires w != [] && w[0] in base
  {
    base[w[0]] + |w| - 1
  }

  ghost predicate Based(preds: Preds, base: map<Obj, nat>) {
    preds.Keys == base.Keys && forall o <- base :: base[o] >= 1
  }

  // Some chain that ends at p makes it h high.
  ghost predicate Reached(preds: Preds, base: map<Obj, nat>, p: Obj, h: nat) {
    exists w :: Walk(preds, w) && w[|w| - 1] == p && w[0] in base && Height(base, w) == h
  }

  // No chain that ends at p makes it higher than h.
  ghost predicate Bounded(preds: Preds, base: map<Obj, nat>, p: Obj, h: nat) {
    forall w :: Walk(preds, w) && w[|w| - 1] == p && w[0] in base ==> Height(base, w) <= h
  }

  lemma Single(preds: Preds, base: map<Obj, nat>, p: Obj)
    requires Based(preds, base) && p in preds
    ensures WalkFromTo(preds, [p], p, p)
    ensures Reached(preds, base, p, base[p])
  {
    assert Walk(preds, [p]);
    assert Height(base, [p]) == base[p];
  }

  lemma Extended(preds: Preds, w: seq<Obj>, p: Obj)
    requires Walk(preds, w) && Edge(preds, w[|w| - 1], p)
    ensures Walk(preds, w + [p])
  {
    forall i: nat | i < |w + [p]| ensures StepAt(preds, w + [p], i) {
      assert i < |w| ==> StepAt(preds, w, i);
    }
  }

  lemma Prefixed(preds: Preds, q: Obj, w: seq<Obj>)
    requires Walk(preds, w) && Edge(preds, q, w[0])
    ensures Walk(preds, [q] + w)
  {
    forall i: nat | i < |[q] + w| ensures StepAt(preds, [q] + w, i) {
      assert i > 0 ==> StepAt(preds, w, i - 1);
    }
  }

  // A predecessor that is h high makes an object h + 1 high.
  lemma ReachedNext(preds: Preds, base: map<Obj, nat>, q: Obj, p: Obj, h: nat)
    requires Reached(preds, base, q, h) && Edge(preds, q, p)
    ensures Reached(preds, base, p, h + 1)
  {
    var w :| Walk(preds, w) && w[|w| - 1] == q && w[0] in base && Height(base, w) == h;
    Extended(preds, w, p);
    assert (w + [p])[|w + [p]| - 1] == p && (w + [p])[0] == w[0];
    assert Height(base, w + [p]) == h + 1;
  }

  // No chain makes q as high as h.
  ghost predicate Below(preds: Preds, base: map<Obj, nat>, q: Obj, h: nat) {
    exists l: nat :: l < h && Bounded(preds, base, q, l)
  }

  // Neither do chains for the first k predecessors of p.
  ghost predicate PredsBounded(preds: Preds, base: map<Obj, nat>, p: Obj, k: nat, h: nat) {
    && p in preds && k <= |preds[p]|
    && forall i :: 0 <= i < k ==> Below(preds, base, preds[p][i], h)
  }

  // If no predecessor is h high or higher, and p does not start from more than h, it is not higher than h.
  lemma BoundedNext(preds: Preds, base: map<Obj, nat>, p: Obj, h: nat)
    requires Based(preds, base) && p in preds && base[p] <= h && PredsBounded(preds, base, p, |preds[p]|, h)
    ensures Bounded(preds, base, p, h)
  {
    forall w | Walk(preds, w) && w[|w| - 1] == p && w[0] in base ensures Height(base, w) <= h {
      if |w| > 1 {
        var v := w[..|w| - 1];
        var q := v[|v| - 1];
        assert StepAt(preds, w, |w| - 2);
        forall i: nat | i < |v| ensures StepAt(preds, v, i) {
          assert StepAt(preds, w, i);
        }
        assert Walk(preds, v);
        var i :| 0 <= i < |preds[p]| && preds[p][i] == q;
        assert Below(preds, base, preds[p][i], h);
        var l: nat :| l < h && Bounded(preds, base, q, l);
        assert Height(base, v) <= l;
      }
    }
  }

  // An object that p leads to is also one that the predecessors of p lead to, and so is p itself.
  lemma LeadsNext(preds: Preds, q: Obj, p: Obj, b: Obj)
    requires Edge(preds, q, p) && (b == p || Leads(preds, p, b))
    ensures Leads(preds, q, b)
  {
    if b == p {
      assert Walk(preds, [p]);
      Prefixed(preds, q, [p]);
      assert WalkFromTo(preds, [q] + [p], q, p);
    } else {
      var w :| WalkFromTo(preds, w, p, b);
      Prefixed(preds, q, w);
      assert WalkFromTo(preds, [q] + w, q, b);
    }
  }
}
