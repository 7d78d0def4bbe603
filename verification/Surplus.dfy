/**
  Which elements a run leaves out, and when nothing counts them: the too-large counter is about records written beyond
  the budget, not about elements that are never reached.
  */
module Surplus {
  import opened Common
  import opened WafObjects
  import opened Truncation
  import opened Budget
  import opened Overrun

  /** The number of nodes of the value down to the given depth, whatever the limit on elements. */
  function Whole(g: Graph, c: Child, depth: int): nat {
    Size(Unfold(g, c, depth))
  }

  function WholeAll(g: Graph, cs: seq<Child>, depth: int): nat {
    SizeAll(UnfoldAll(g, cs, depth))
  }

  /**
    The budget runs out at a last element, if it runs out at all: of the elements a container admits, all but the last
    fit with something to spare, and the last one is cut cleanly itself.
    */
  predicate CutsCleanly(g: Graph, c: Child, rem: int, depth: int)
    decreases Levels(depth), 1
  {
    rem >= 1 && (Enters(g, c, rem, depth) ==> AllCutCleanly(g, Admitted(g[c.value], rem - 1), rem - 1, depth - 1))
  }

  predicate AllCutCleanly(g: Graph, cs: seq<Child>, rem: int, depth: int)
    decreases Levels(depth), 2
  {
    cs == [] ||
    var before := WholeAll(g, cs[..|cs| - 1], depth);
    before < rem && CutsCleanly(g, cs[|cs| - 1], rem - before, depth)
  }

  // ---------------------------------------------------------------- what is left of the budget

  lemma WholeStep(g: Graph, cs: seq<Child>, depth: int)
    requires cs != []
    ensures WholeAll(g, cs, depth) == Whole(g, cs[0], depth) + WholeAll(g, cs[1..], depth) >= 1
    ensures WholeAll(g, [], depth) == 0
  {
    hide Unfold, Size;
    var es := UnfoldAll(g, cs, depth);
    assert es[1..] == UnfoldAll(g, cs[1..], depth) && es[0] == Unfold(g, cs[0], depth);
  }

  lemma WholeNothing(g: Graph, depth: int)
    ensures WholeAll(g, [], depth) == 0
  {
  }

  lemma WholeCounts(g: Graph, cs: seq<Child>, depth: int)
    ensures WholeAll(g, cs, depth) >= |cs|
  {
    hide UnfoldAll, SizeAll;
  }

  lemma WholeOf(g: Graph, c: Child, depth: int)
    ensures Whole(g, c, depth) == if depth >= 0 && c.value in g && HasChildren(g[c.value])
                                  then 1 + WholeAll(g, Children(g[c.value]), depth - 1) else 1
  {
    hide UnfoldAll, Children, SizeAll;
    if depth >= 0 && c.value in g && HasChildren(g[c.value]) {
      ContainerKindIs(g[c.value]);
    }
    NoEntries();
  }

  lemma {:induction false} WholeSnoc(g: Graph, cs: seq<Child>, c: Child, depth: int)
    ensures WholeAll(g, cs + [c], depth) == WholeAll(g, cs, depth) + Whole(g, c, depth)
    decreases |cs|
  {
    hide Whole, WholeAll;
    WholeStep(g, cs + [c], depth);
    WholeNothing(g, depth);
    if cs == [] {
      assert (cs + [c])[1..] == [];
    } else {
      WholeStep(g, cs, depth);
      WholeSnoc(g, cs[1..], c, depth);
      assert (cs + [c])[1..] == cs[1..] + [c];
    }
  }

  /** What a call leaves: all but what it writes if it can write everything, and otherwise nothing. */
  lemma {:induction false} SerLeaves(g: Graph, lim: Limits, c: Child, rem: int, depth: int)
    requires rem >= 1
    ensures var r := Ser(g, lim, c, rem, depth); var whole := Whole(g, c, depth);
      r.Done? ==> if whole <= rem then r.left == rem - whole else r.left <= 0
    decreases Levels(depth), 0
  {
    hide Ser, SerAll, Admitted, Children, Whole, WholeAll;
    WholeOf(g, c, depth);
    if Enters(g, c, rem, depth) {
      var all, kids := Children(g[c.value]), Admitted(g[c.value], rem - 1);
      EnteredCase(g, lim, c, rem, depth);
      AdmittedLength(g[c.value], rem - 1);
      AdmitsAll(g[c.value], rem - 1);
      WholeCounts(g, all, depth - 1);
      WholeCounts(g, kids, depth - 1);
      SerAllLeavesWhole(g, lim, kids, rem - 1, depth - 1);
    } else {
      LeafCase(g, lim, c, rem, depth);
    }
  }

  lemma {:induction false} SerAllLeavesWhole(g: Graph, lim: Limits, cs: seq<Child>, rem: int, depth: int)
    requires rem >= 0
    ensures var r := SerAll(g, lim, cs, rem, depth); var whole := WholeAll(g, cs, depth);
      r.DoneAll? ==> if whole <= rem then r.left == rem - whole else r.left <= 0
    decreases Levels(depth), 1 + |cs|
  {
    hide Ser, Whole, WholeAll;
    WholeNothing(g, depth);
    if cs != [] {
      WholeStep(g, cs, depth);
      if rem == 0 {
        SerAllLeaves(g, lim, cs, rem, depth);
      } else {
        SerLeaves(g, lim, cs[0], rem, depth);
        var r := Ser(g, lim, cs[0], rem, depth);
        if r.Done? {
          if r.left <= 0 {
            SerAllLeaves(g, lim, cs[1..], r.left, depth);
          }
          if r.left >= 0 {
            SerAllLeavesWhole(g, lim, cs[1..], r.left, depth);
          }
        }
      }
    }
  }

  /** The calls for cs, and then one more. */
  lemma {:induction false} SerAllSnoc(g: Graph, lim: Limits, cs: seq<Child>, c: Child, rem: int, depth: int)
    ensures var all, most := SerAll(g, lim, cs + [c], rem, depth), SerAll(g, lim, cs, rem, depth);
      all.DoneAll? ==> most.DoneAll? && Ser(g, lim, c, most.left, depth).Done? && all.left == Ser(g, lim, c, most.left, depth).left
    decreases |cs|
  {
    hide Ser;
    if cs == [] {
      assert cs + [c] == [c] && [c][1..] == [];
    } else {
      assert (cs + [c])[1..] == cs[1..] + [c];
      var r := Ser(g, lim, cs[0], rem, depth);
      if r.Done? {
        SerAllSnoc(g, lim, cs[1..], c, r.left, depth);
      }
    }
  }

  /** The budget is not overdrawn if and only if it runs out cleanly. */
  lemma {:induction false} SerCutsCleanly(g: Graph, lim: Limits, c: Child, rem: int, depth: int)
    ensures var r := Ser(g, lim, c, rem, depth); r.Done? ==> (r.left >= 0 <==> CutsCleanly(g, c, rem, depth))
    decreases Levels(depth), 0
  {
    hide Ser, SerAll, Admitted, AllCutCleanly;
    if Enters(g, c, rem, depth) {
      EnteredCase(g, lim, c, rem, depth);
      SerAllCutsCleanly(g, lim, Admitted(g[c.value], rem - 1), rem - 1, depth - 1);
    } else {
      LeafCase(g, lim, c, rem, depth);
    }
  }

  lemma {:induction false} SerAllCutsCleanly(g: Graph, lim: Limits, cs: seq<Child>, rem: int, depth: int)
    requires rem >= 0
    ensures var r := SerAll(g, lim, cs, rem, depth); r.DoneAll? ==> (r.left >= 0 <==> AllCutCleanly(g, cs, rem, depth))
    decreases Levels(depth), 1
  {
    hide Ser, WholeAll, CutsCleanly;
    if cs != [] {
      var most, last := cs[..|cs| - 1], cs[|cs| - 1];
      assert cs == most + [last];
      SerAllSnoc(g, lim, most, last, rem, depth);
      SerAllLeavesWhole(g, lim, most, rem, depth);
      var r := SerAll(g, lim, most, rem, depth);
      if r.DoneAll? {
        SerCutsCleanly(g, lim, last, r.left, depth);
        if r.left <= 0 {
          NothingIsClean(g, last, r.left, depth);
        }
      }
    }
  }

  lemma NothingIsClean(g: Graph, c: Child, rem: int, depth: int)
    requires rem <= 0
    ensures !CutsCleanly(g, c, rem, depth)
  {
  }

  // ---------------------------------------------------------------- what is lost

  /** The entries of a container are cut to the budget: some are left out if and only if there are more than it has left. */
  lemma EntriesLostIff(g: Graph, lim: Limits, c: Child, rem: int, depth: int)
    requires Enters(g, c, rem, depth)
    ensures var r := Ser(g, lim, c, rem, depth); var all := Children(g[c.value]);
      r.Done? ==>
        && |r.tree.entries| == Min(|all|, rem - 1)
        && (|r.tree.entries| < |all| <==> |all| > rem - 1)
        && (r.counts.tooLarge == 0 <==> CutsCleanly(g, c, rem, depth))
  {
    hide Ser, Children, Admitted, CutsCleanly;
    EnteredCase(g, lim, c, rem, depth);
    AdmittedLength(g[c.value], rem - 1);
    SerConserves(g, lim, c, rem, depth);
    SerCutsCleanly(g, lim, c, rem, depth);
  }

  /** No element is a container that would be entered itself. */
  predicate Flat(g: Graph, cs: seq<Child>, depth: int) {
    forall i :: 0 <= i < |cs| ==> depth < 0 || cs[i].value !in g || !HasChildren(g[cs[i].value])
  }

  lemma {:induction false} FlatWhole(g: Graph, cs: seq<Child>, depth: int)
    requires Flat(g, cs, depth)
    ensures WholeAll(g, cs, depth) == |cs|
    decreases |cs|
  {
    hide Whole, WholeAll;
    WholeNothing(g, depth);
    if cs != [] {
      WholeStep(g, cs, depth);
      WholeOf(g, cs[0], depth);
      FlatWhole(g, cs[1..], depth);
    }
  }

  lemma FlatCutsCleanly(g: Graph, cs: seq<Child>, rem: int, depth: int)
    requires Flat(g, cs, depth) && |cs| <= rem
    ensures AllCutCleanly(g, cs, rem, depth)
  {
    hide WholeAll, Whole;
    if cs != [] {
      var n := |cs| - 1;
      FlatWhole(g, cs[..n], depth);
      assert !Enters(g, cs[n], rem - n, depth);
    }
  }

  /** A container of values that are no containers: however many of them are left out, nothing counts them. */
  lemma FlatSurplusIsNotCounted(g: Graph, lim: Limits, c: Child, rem: int, depth: int)
    requires Enters(g, c, rem, depth) && Flat(g, Children(g[c.value]), depth - 1)
    ensures var r := Ser(g, lim, c, rem, depth); var all := Children(g[c.value]);
      r.Done? ==> r.counts.tooLarge == 0 && (|r.tree.entries| < |all| <==> |all| > rem - 1)
  {
    var kids := Admitted(g[c.value], rem - 1);
    FlatPrefix(g, g[c.value], rem - 1, depth - 1);
    AdmittedLength(g[c.value], rem - 1);
    hide Ser, Children, Admitted, AllCutCleanly;
    FlatCutsCleanly(g, kids, rem - 1, depth - 1);
    EntriesLostIff(g, lim, c, rem, depth);
  }

  lemma FlatPrefix(g: Graph, o: JavaObject, left: nat, depth: int)
    requires HasChildren(o) && Flat(g, Children(o), depth)
    ensures Flat(g, Admitted(o, left), depth)
  {
    hide Children;
  }

  /**
    A whole run that loses nodes and counts none of them: if and only if the value has more nodes than the limit and the
    budget runs out cleanly. The run then writes exactly as many records as the limit says.
    */
  lemma SurplusIsNotCountedIff(g: Graph, lim: Limits, root: Ref)
    requires lim.maxElements >= 1
    ensures var r := Truncate(g, lim, root); var c, m := Child(None, root), lim.maxElements;
      r.Done? ==>
        && (r.counts.tooLarge == 0 <==> CutsCleanly(g, c, m, lim.maxDepth))
        && (r.counts.tooLarge == 0 ==> Size(r.tree) == Min(Whole(g, c, lim.maxDepth), m))
        && (r.counts.tooLarge == 0 && Size(r.tree) < Whole(g, c, lim.maxDepth) <==>
            Whole(g, c, lim.maxDepth) > m && CutsCleanly(g, c, m, lim.maxDepth))
  {
    var c, m := Child(None, root), lim.maxElements;
    hide Ser, CutsCleanly, Whole, Size;
    TruncateIs(g, lim, root);
    SerConserves(g, lim, c, m, lim.maxDepth);
    SerLeaves(g, lim, c, m, lim.maxDepth);
    SerCutsCleanly(g, lim, c, m, lim.maxDepth);
  }
}
