/**
 * The SV39 radix walk shared by both snapshots' `find_pte`: starting at the root table, the
 * first two indices of a page number select entries that must be valid and name the next table;
 * the third index selects the leaf slot, valid or not. The second half states what the allocating
 * walk (`find_pte_entry` in one snapshot, `get_pte_entry` in the other) may change on its way down.
 */
module PageWalk {
  import opened Wrappers
  import opened Sv39
  import opened Pte
  import opened PhysMemory

  /** The table reached after following `k` levels of the walk for indices `ix`, if every entry on the way is valid. */
  function LevelFrame(words: Words, root: nat, ix: seq<nat>, k: nat): (r: Option<nat>)
    requires k < |ix|
  {
    if k == 0 then Some(root)
    else match LevelFrame(words, root, ix, k - 1)
      case None => None
      case Some(f) =>
        var e := WordAt(words, Slot(f, ix[k - 1]));
        var next: nat := Ppn(e);
        if IsValid(e) then Some(next) else None
  }

  /** Where `find_pte(vpn)` stops: the leaf slot, or `None` when an intermediate entry is invalid. */
  function LeafSlot(words: Words, root: nat, vpn: nat): (r: Option<Slot>)
    ensures r.Some? ==> r.value.index < ENTRIES
  {
    var ix := VpnIndexes(vpn);
    match LevelFrame(words, root, ix, 2)
    case None => None
    case Some(f) => Some(Slot(f, ix[2]))
  }

  /** `translate(vpn)`: a copy of the entry in the leaf slot. */
  function Translation(words: Words, root: nat, vpn: nat): (r: Option<Usize>)
    ensures r.Some? <==> LeafSlot(words, root, vpn).Some?
  {
    match LeafSlot(words, root, vpn)
    case None => None
    case Some(s) => Some(WordAt(words, s))
  }

  /** The walk written out level by level; `None` exactly when the first or the second entry is invalid. */
  lemma LeafSlotLevels(words: Words, root: nat, vpn: nat)
    ensures var ix := VpnIndexes(vpn);
      var e0 := WordAt(words, Slot(root, ix[0]));
      var e1 := WordAt(words, Slot(Ppn(e0), ix[1]));
      LeafSlot(words, root, vpn) ==
        if !IsValid(e0) then None
        else if !IsValid(e1) then None
        else Some(Slot(Ppn(e1), ix[2]))
  {
    var ix := VpnIndexes(vpn);
    var e0 := WordAt(words, Slot(root, ix[0]));
    assert LevelFrame(words, root, ix, 0) == Some(root);
    assert LevelFrame(words, root, ix, 1) == if IsValid(e0) then Some(Ppn(e0) as nat) else None;
  }

  /** Page numbers that agree in their low 27 bits reach the same leaf slot: the walk reads only those bits. */
  lemma LeafSlotLow27(words: Words, root: nat, a: nat, b: nat)
    requires a % VPN_LIMIT == b % VPN_LIMIT
    ensures LeafSlot(words, root, a) == LeafSlot(words, root, b)
  {
    IndexesLow27(a, b);
  }

  /** The entries of the root table and of the second-level tables point where the level sets say. */
  ghost predicate Shaped(words: Words, root: nat, l1: set<nat>, l2: set<nat>)
  {
    && (forall i :: 0 <= i < ENTRIES && IsValid(WordAt(words, Slot(root, i))) ==>
          Ppn(WordAt(words, Slot(root, i))) in l1)
    && (forall f, i :: f in l1 && 0 <= i < ENTRIES && IsValid(WordAt(words, Slot(f, i))) ==>
          Ppn(WordAt(words, Slot(f, i))) in l2)
  }

  /** A slot of the root table or of a second-level table. */
  predicate TableSlot(root: nat, l1: set<nat>, s: Slot)
  {
    (s.ppn == root || s.ppn in l1) && s.index < ENTRIES
  }

  /** The tables form a tree: no two valid entries of the upper levels name the same frame. */
  ghost predicate Tree(words: Words, root: nat, l1: set<nat>)
  {
    forall s1: Slot, s2: Slot {:trigger TableSlot(root, l1, s1), TableSlot(root, l1, s2)} ::
      s1 != s2 && TableSlot(root, l1, s1) && TableSlot(root, l1, s2) &&
      IsValid(WordAt(words, s1)) && IsValid(WordAt(words, s2)) ==>
      Ppn(WordAt(words, s1)) != Ppn(WordAt(words, s2))
  }

  /**
   * In a tree, page numbers that differ in their low 27 bits reach different leaf slots, so a
   * store through one leaf never shows through another.
   */
  lemma DistinctLeaves(words: Words, root: nat, l1: set<nat>, l2: set<nat>, a: nat, b: nat)
    requires Shaped(words, root, l1, l2) && Tree(words, root, l1)
    requires LeafSlot(words, root, a).Some? && LeafSlot(words, root, b).Some?
    requires a % VPN_LIMIT != b % VPN_LIMIT
    ensures LeafSlot(words, root, a) != LeafSlot(words, root, b)
  {
    LeafSlotLevels(words, root, a);
    LeafSlotLevels(words, root, b);
    IndexesRecombine(a);
    IndexesRecombine(b);
    var ia, ib := VpnIndexes(a), VpnIndexes(b);
    var s0a, s0b := Slot(root, ia[0]), Slot(root, ib[0]);
    var f1a, f1b := Ppn(WordAt(words, s0a)), Ppn(WordAt(words, s0b));
    var s1a, s1b := Slot(f1a, ia[1]), Slot(f1b, ib[1]);
    assert f1a in l1 && f1b in l1;
    if LeafSlot(words, root, a) == LeafSlot(words, root, b) {
      assert Ppn(WordAt(words, s1a)) == Ppn(WordAt(words, s1b)) && ia[2] == ib[2];
      assert TableSlot(root, l1, s1a) && TableSlot(root, l1, s1b);
      assert s1a == s1b;
      assert TableSlot(root, l1, s0a) && TableSlot(root, l1, s0b);
      assert false;
    }
  }

  /**
   * The upper-level store of the allocating walk keeps the tree: the entry it makes valid names a
   * frame no valid entry named, and that frame, if it joins the second level, holds only zeros.
   */
  lemma TreeAfterAllocate(w: Words, w': Words, root: nat, l1: set<nat>, l2: set<nat>, l1': set<nat>, l2': set<nat>,
                          pte: Slot, f: nat)
    requires Shaped(w, root, l1, l2) && Tree(w, root, l1)
    requires f !in l1 && f !in l2 && f != root && root !in l1
    requires TableSlot(root, l1, pte) && !IsValid(WordAt(w, pte))
    requires pte.ppn == root ==> l1' == l1 + {f} && l2' == l2
    requires pte.ppn != root ==> l1' == l1 && l2' == l2 + {f}
    requires f < PPN_LIMIT && WordAt(w', pte) == New(f, V)
    requires forall s: Slot :: s != pte && s.ppn != f ==> WordAt(w', s) == WordAt(w, s)
    requires forall s: Slot :: s.ppn == f ==> WordAt(w', s) == 0
    ensures Shaped(w', root, l1', l2')
    ensures Tree(w', root, l1')
  {
    ValidityOfNew(0, 0);
    ValidityOfNew(f, V);
    forall g, i | g in l1' && 0 <= i < ENTRIES && IsValid(WordAt(w', Slot(g, i)))
      ensures Ppn(WordAt(w', Slot(g, i))) in l2'
    {
      if Slot(g, i) != pte {
        assert g != f && WordAt(w', Slot(g, i)) == WordAt(w, Slot(g, i));
      }
    }
    forall s1: Slot, s2: Slot | s1 != s2 && TableSlot(root, l1', s1) && TableSlot(root, l1', s2) &&
        IsValid(WordAt(w', s1)) && IsValid(WordAt(w', s2))
      ensures Ppn(WordAt(w', s1)) != Ppn(WordAt(w', s2))
    {
      assert s1.ppn != f && s2.ppn != f;
      assert TableSlot(root, l1, s1) && TableSlot(root, l1, s2);
      if s1 == pte {
        assert WordAt(w', s2) == WordAt(w, s2);
        assert Ppn(WordAt(w, s2)) in l1 || Ppn(WordAt(w, s2)) in l2;
      } else if s2 == pte {
        assert WordAt(w', s1) == WordAt(w, s1);
        assert Ppn(WordAt(w, s1)) in l1 || Ppn(WordAt(w, s1)) in l2;
      }
    }
  }

  /** The walk of a shaped table ends in a leaf-level table. */
  lemma LeafSlotInLeafLevel(words: Words, root: nat, l1: set<nat>, l2: set<nat>, vpn: nat)
    requires Shaped(words, root, l1, l2)
    requires LeafSlot(words, root, vpn).Some?
    ensures LeafSlot(words, root, vpn).value.ppn in l2
  {
    LeafSlotLevels(words, root, vpn);
    var ix := VpnIndexes(vpn);
    assert ix[0] < ENTRIES && ix[1] < ENTRIES;
  }

  /** The walk reads only the root and second-level tables, so writes elsewhere leave it and the shape alone. */
  lemma WalkIgnoresLeafLevel(w: Words, w': Words, root: nat, l1: set<nat>, l2: set<nat>)
    requires Shaped(w, root, l1, l2)
    requires forall s: Slot :: s.ppn == root || s.ppn in l1 ==> WordAt(w', s) == WordAt(w, s)
    ensures Shaped(w', root, l1, l2)
    ensures forall vpn: nat {:trigger LeafSlot(w', root, vpn)} :: LeafSlot(w', root, vpn) == LeafSlot(w, root, vpn)
    ensures Tree(w, root, l1) ==> Tree(w', root, l1)
  {
    forall vpn: nat ensures LeafSlot(w', root, vpn) == LeafSlot(w, root, vpn) {
      LeafSlotLevels(w, root, vpn);
      LeafSlotLevels(w', root, vpn);
      var ix := VpnIndexes(vpn);
      var e0 := WordAt(w, Slot(root, ix[0]));
      if IsValid(e0) {
        assert Ppn(e0) in l1;
      }
    }
  }

  /**
   * A change the allocating walk may make keeps every leaf slot the walk already reached: the
   * entries on its path are valid, and they lie in frames the table already owned.
   */
  lemma GrowsOnlyKeepsLeafSlot(w: Words, w': Words, root: nat, l1: set<nat>, l2: set<nat>,
                               owned: set<nat>, added: set<nat>, u: nat)
    requires Shaped(w, root, l1, l2) && root in owned && l1 <= owned && added !! owned
    requires GrowsOnly(w, w', owned, added)
    requires LeafSlot(w, root, u).Some?
    ensures LeafSlot(w', root, u) == LeafSlot(w, root, u)
  {
    LeafSlotLevels(w, root, u);
    LeafSlotLevels(w', root, u);
    var ix := VpnIndexes(u);
    var e0 := WordAt(w, Slot(root, ix[0]));
    assert IsValid(e0) && WordAt(w', Slot(root, ix[0])) == e0;
    assert Ppn(e0) in l1;
    var e1 := WordAt(w, Slot(Ppn(e0), ix[1]));
    assert IsValid(e1) && WordAt(w', Slot(Ppn(e0), ix[1])) == e1;
  }

  /**
   * A change the allocating walk may make keeps every valid leaf where it was: the entries on its
   * path are valid, and they lie in frames the table already owned.
   */
  lemma GrowsOnlyKeepsValidLeaf(w: Words, w': Words, root: nat, l1: set<nat>, l2: set<nat>,
                                owned: set<nat>, added: set<nat>, u: nat)
    requires Shaped(w, root, l1, l2) && root in owned && l1 <= owned && l2 <= owned && added !! owned
    requires GrowsOnly(w, w', owned, added)
    requires Translation(w, root, u).Some? && IsValid(Translation(w, root, u).value)
    ensures LeafSlot(w', root, u) == LeafSlot(w, root, u)
    ensures Translation(w', root, u) == Translation(w, root, u)
  {
    LeafSlotLevels(w, root, u);
    LeafSlotLevels(w', root, u);
    var ix := VpnIndexes(u);
    var e0 := WordAt(w, Slot(root, ix[0]));
    assert IsValid(e0) && WordAt(w', Slot(root, ix[0])) == e0;
    assert Ppn(e0) in l1;
    var e1 := WordAt(w, Slot(Ppn(e0), ix[1]));
    assert IsValid(e1) && WordAt(w', Slot(Ppn(e0), ix[1])) == e1;
    assert Ppn(e1) in l2;
  }

  /**
   * A change of the word view is one the allocating walk may make: outside the frames it allocated,
   * only entries that were invalid change, and only in frames the table already owned.
   */
  ghost predicate GrowsOnly(w: Words, w': Words, owned: set<nat>, added: set<nat>)
  {
    forall s: Slot :: WordAt(w', s) != WordAt(w, s) ==>
      s.ppn in added || (s.ppn in owned && !IsValid(WordAt(w, s)))
  }

  /**
   * An entry the allocating walk rewrote before reaching level `count`: one of the root table, or
   * (at the last level) of a second-level table, that was invalid and now names a frame the walk
   * allocated, with only V set.
   */
  ghost predicate Rewritten(w0: Words, w: Words, s: Slot, root: nat, l1: set<nat>, count: nat, added: set<nat>)
  {
    && (s.ppn == root || (count == 2 && s.ppn in l1))
    && !IsValid(WordAt(w0, s))
    && WordAt(w, s) == New(Ppn(WordAt(w, s)), V)
    && Ppn(WordAt(w, s)) in added
  }

  /**
   * The state of the allocating walk standing on table `ppn` at level `count`, compared with the
   * memory `w0` it started from: either it is still on the original path, or it has left it
   * through a table it allocated (all zero), and every other change is a rewritten entry.
   */
  ghost predicate Walked(w0: Words, w: Words, root: nat, l1: set<nat>, ix: seq<nat>, count: nat, ppn: nat, added: set<nat>)
    requires count < |ix|
  {
    && LevelFrame(w, root, ix, count) == Some(ppn)
    && (ppn !in added ==> LevelFrame(w0, root, ix, count) == Some(ppn))
    && (ppn in added ==> forall s: Slot :: s.ppn == ppn ==> WordAt(w, s) == 0)
    && (added != {} ==> LevelFrame(w0, root, ix, count).None?)
    && (forall s: Slot :: WordAt(w, s) != WordAt(w0, s) ==> s.ppn in added || Rewritten(w0, w, s, root, l1, count, added))
    && (forall s: Slot :: s.ppn in added && s.ppn !in l1 ==> WordAt(w, s) == 0)
    && (forall s: Slot :: s.ppn in added && WordAt(w, s) != 0 ==> Ppn(WordAt(w, s)) in added)
  }

  /** One level of the allocating walk through an invalid entry, replaced by one naming the fresh frame `f`. */
  lemma WalkStepAllocating(w0: Words, w: Words, w': Words, root: nat, l1: set<nat>, l1': set<nat>,
                           ix: seq<nat>, count: nat, ppn: nat, added: set<nat>, f: nat)
    requires |ix| == 3 && count <= 1 && ix[count] < ENTRIES
    requires Walked(w0, w, root, l1, ix, count, ppn, added)
    requires count == 0 ==> ppn == root && l1' == l1 + {f}
    requires count == 1 ==> ppn in l1 && ppn != root && l1' == l1 && f !in l1
    requires f !in added && f != root && f != ppn && f < PPN_LIMIT
    requires !IsValid(WordAt(w, Slot(ppn, ix[count])))
    requires WordAt(w', Slot(ppn, ix[count])) == New(f, V) && Ppn(New(f, V)) == f && IsValid(New(f, V))
    requires forall s: Slot :: s != Slot(ppn, ix[count]) && s.ppn != f ==> WordAt(w', s) == WordAt(w, s)
    requires forall s: Slot :: s.ppn == f ==> WordAt(w', s) == 0
    ensures Walked(w0, w', root, l1', ix, count + 1, f, added + {f})
  {
    var pte := Slot(ppn, ix[count]);
    assert LevelFrame(w', root, ix, count) == Some(ppn) by {
      if count == 1 {
        assert LevelFrame(w', root, ix, 0) == LevelFrame(w, root, ix, 0) == Some(root);
        assert WordAt(w', Slot(root, ix[0])) == WordAt(w, Slot(root, ix[0]));
      }
    }
    if ppn !in added {
      assert WordAt(w, pte) == WordAt(w0, pte) by {
        if WordAt(w, pte) != WordAt(w0, pte) {
          assert Rewritten(w0, w, pte, root, l1, count, added);
          ValidityOfNew(Ppn(WordAt(w, pte)), V);
        }
      }
    }
    forall s: Slot | WordAt(w', s) != WordAt(w0, s)
      ensures s.ppn in added + {f} || Rewritten(w0, w', s, root, l1', count + 1, added + {f})
    {
      if s.ppn != f && s != pte {
        assert WordAt(w', s) == WordAt(w, s);
      }
    }
  }

  /** One level of the allocating walk through a valid entry. */
  lemma WalkStepFollowing(w0: Words, w: Words, root: nat, l1: set<nat>, l10: set<nat>, l20: set<nat>,
                          ix: seq<nat>, count: nat, ppn: nat, added: set<nat>)
    requires |ix| == 3 && count <= 1 && ix[0] < ENTRIES && ix[1] < ENTRIES
    requires Walked(w0, w, root, l1, ix, count, ppn, added)
    requires Shaped(w0, root, l10, l20) && added !! ({root} + l10 + l20)
    requires count == 0 ==> ppn == root && added == {}
    requires count == 1 ==> ppn != root
    requires IsValid(WordAt(w, Slot(ppn, ix[count])))
    ensures Walked(w0, w, root, l1, ix, count + 1, Ppn(WordAt(w, Slot(ppn, ix[count]))), added)
  {
    var pte := Slot(ppn, ix[count]);
    ValidityOfNew(0, 0);
    assert ppn !in added;
    assert WordAt(w, pte) == WordAt(w0, pte);
    if count == 1 {
      assert LevelFrame(w0, root, ix, 0) == Some(root);
      assert ppn in l10;
    }
  }

  /** Every valid translation in `w` is one that `w0` already had. */
  ghost predicate OnlyOldValid(w0: Words, w: Words, root: nat)
  {
    forall u: nat {:trigger Translation(w, root, u)} ::
      Translation(w, root, u).Some? && IsValid(Translation(w, root, u).value) ==> Translation(w0, root, u) == Translation(w, root, u)
  }

  /**
   * The allocating walk makes no page valid: a valid leaf is reached only through entries that
   * were there before, since every entry it rewrote leads into its own zero-filled tables.
   */
  lemma WalkAddsNoValidLeaf(w0: Words, w: Words, root: nat, l1: set<nat>, l2: set<nat>, ix: seq<nat>, ppn: nat,
                            added: set<nat>)
    requires |ix| == 3
    requires Walked(w0, w, root, l1, ix, 2, ppn, added)
    requires Shaped(w, root, l1, l2) && root !in added && root !in l2 && l1 !! l2
    ensures OnlyOldValid(w0, w, root)
  {
    ValidityOfNew(0, 0);
    forall u: nat | Translation(w, root, u).Some? && IsValid(Translation(w, root, u).value)
      ensures Translation(w0, root, u) == Translation(w, root, u)
    {
      LeafSlotLevels(w, root, u);
      LeafSlotLevels(w0, root, u);
      LeafSlotInLeafLevel(w, root, l1, l2, u);
      var ix := VpnIndexes(u);
      var s0 := Slot(root, ix[0]);
      var s1 := Slot(Ppn(WordAt(w, s0)), ix[1]);
      var s2 := Slot(Ppn(WordAt(w, s1)), ix[2]);
      assert s2.ppn !in added;
      assert s1.ppn !in added;
      assert WordAt(w0, s0) == WordAt(w, s0);
      assert WordAt(w0, s1) == WordAt(w, s1);
      assert WordAt(w0, s2) == WordAt(w, s2);
    }
  }

  /** What the allocating walk has done once it reaches the leaf level. */
  lemma WalkFinished(w0: Words, w: Words, root: nat, l1: set<nat>, ix: seq<nat>, ppn: nat,
                     added: set<nat>, owned: set<nat>)
    requires |ix| == 3
    requires Walked(w0, w, root, l1, ix, 2, ppn, added)
    requires root in owned && l1 <= owned + added
    ensures LevelFrame(w0, root, ix, 2).None? ==> ppn in added && !IsValid(WordAt(w, Slot(ppn, ix[2])))
    ensures LevelFrame(w0, root, ix, 2).Some? ==> added == {} && LevelFrame(w0, root, ix, 2) == Some(ppn)
    ensures GrowsOnly(w0, w, owned, added)
    ensures forall s: Slot :: WordAt(w, s) != WordAt(w0, s) && s.ppn in owned && s.ppn !in added ==>
      WordAt(w, s) == New(Ppn(WordAt(w, s)), V) && Ppn(WordAt(w, s)) in added
  {
    ValidityOfNew(0, 0);
  }

  /** What the allocating walk compares its progress with: the table, allocator and memory when it started. */
  datatype WalkStart = WalkStart(
    root: nat, leafs: map<nat, nat>, frames: seq<nat>, owned: set<nat>, l1: set<nat>, l2: set<nat>,
    words: Words, bytes: Bytes, current: nat, end: nat, recycled: seq<nat>, live: set<nat>, free: nat)
}
