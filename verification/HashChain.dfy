/** Texts linked by the hash of their predecessor. A text fixes its own parent link, so the
    last text of a linked sequence fixes the whole sequence, up to a hash collision. */
module HashChain {
  import opened Basics

  type Hash = string -> string
  /** The parent hash a text carries, `None` for the first of a chain. */
  type ParentOf = string -> Option<string>

  function ExpectedParent(hash: Hash, chain: seq<string>, i: nat): Option<string>
    requires i < |chain|
  {
    if i == 0 then None else Some(hash(chain[i - 1]))
  }

  predicate LinkedAt(hash: Hash, parent: ParentOf, chain: seq<string>, i: nat)
    requires i < |chain|
  {
    parent(chain[i]) == ExpectedParent(hash, chain, i)
  }

  predicate Linked(hash: Hash, parent: ParentOf, chain: seq<string>) {
    forall i :: 0 <= i < |chain| ==> LinkedAt(hash, parent, chain, i)
  }

  /** Two different texts of the given sequences with the same hash. */
  ghost predicate Collision(hash: Hash, a: seq<string>, b: seq<string>) {
    exists x, y :: x in a && y in b && x != y && hash(x) == hash(y)
  }

  lemma LinkedPrefix(hash: Hash, parent: ParentOf, chain: seq<string>, n: nat)
    requires Linked(hash, parent, chain) && n <= |chain|
    ensures Linked(hash, parent, chain[..n])
  {
    forall i | 0 <= i < n
      ensures LinkedAt(hash, parent, chain[..n], i)
    {
      assert LinkedAt(hash, parent, chain, i);
    }
  }

  /** THE TAIL FIXES THE CHAIN: linked chains with the same last text are equal. */
  lemma {:induction false} TailFixesChain(hash: Hash, parent: ParentOf, a: seq<string>, b: seq<string>)
    requires Linked(hash, parent, a) && Linked(hash, parent, b)
    requires a != [] && b != [] && a[|a| - 1] == b[|b| - 1]
    ensures a == b || Collision(hash, a, b)
    decreases |a|
  {
    var m, n := |a| - 1, |b| - 1;
    assert LinkedAt(hash, parent, a, m) && LinkedAt(hash, parent, b, n);
    if m > 0 && n > 0 {
      var x, y := a[m - 1], b[n - 1];
      assert hash(x) == hash(y);
      if x == y {
        LinkedPrefix(hash, parent, a, m);
        LinkedPrefix(hash, parent, b, n);
        TailFixesChain(hash, parent, a[..m], b[..n]);
        assert a == a[..m] + [a[m]] && b == b[..n] + [b[n]];
      } else {
        assert x in a && y in b;
      }
    }
  }

  /** No text occurs twice in a linked chain. */
  lemma NoRepeats(hash: Hash, parent: ParentOf, chain: seq<string>, i: nat, j: nat)
    requires Linked(hash, parent, chain) && i < j < |chain|
    ensures chain[i] != chain[j] || Collision(hash, chain, chain)
  {
    if chain[i] == chain[j] {
      LinkedPrefix(hash, parent, chain, i + 1);
      LinkedPrefix(hash, parent, chain, j + 1);
      TailFixesChain(hash, parent, chain[..i + 1], chain[..j + 1]);
      assert |chain[..i + 1]| != |chain[..j + 1]|;
      var x, y :| x in chain[..i + 1] && y in chain[..j + 1] && x != y && hash(x) == hash(y);
      assert x in chain && y in chain;
    }
  }

  /** Where a later text stands in an earlier place, the link is broken. */
  lemma SkippedLink(hash: Hash, parent: ParentOf, chain: seq<string>, g: nat, k: nat)
    requires Linked(hash, parent, chain) && g < k < |chain|
    ensures parent(chain[k]) != ExpectedParent(hash, chain, g) || Collision(hash, chain, chain)
  {
    assert LinkedAt(hash, parent, chain, k);
    if g > 0 && hash(chain[k - 1]) == hash(chain[g - 1]) {
      NoRepeats(hash, parent, chain, g - 1, k - 1);
      if chain[g - 1] != chain[k - 1] {
        assert chain[g - 1] in chain && chain[k - 1] in chain;
      }
    }
  }
}
