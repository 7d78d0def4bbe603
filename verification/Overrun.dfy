/** How many records a run can write beyond the limit on elements, exactly, and for which limits it can. */
module Overrun {
  import opened Common
  import opened WafObjects
  import opened Truncation
  import opened Budget

  /**
    The most a call can overdraw a budget of rem at the given depth: an inner container takes all that is left, and
    each of the rem - 2 siblings after it still takes a record, on every level.
    */
  function Overrun(depth: int, rem: int): nat
    decreases Levels(depth)
  {
    if depth <= 0 || rem <= 2 then 0 else rem - 2 + Overrun(depth - 1, rem - 1)
  }

  lemma {:induction false} OverrunMono(depth: int, a: int, b: int)
    requires a <= b
    ensures Overrun(depth, a) <= Overrun(depth, b)
    decreases Levels(depth)
  {
    if depth > 0 && a > 2 {
      OverrunMono(depth - 1, a - 1, b - 1);
    }
  }

  /** No more than depth times what one level can overdraw. */
  lemma {:induction false} OverrunBound(depth: nat, rem: int)
    ensures Overrun(depth, rem) <= depth * Max(rem - 2, 0)
  {
    if depth > 0 && rem > 2 {
      OverrunBound(depth - 1, rem - 1);
      var n := rem - 2;
      assert (depth - 1) * (n - 1) <= (depth - 1) * n;
      assert depth * n == (depth - 1) * n + n;
    }
  }

  // ---------------------------------------------------------------- no run overdraws more

  /** Without budget or depth every call writes exactly one record. */
  lemma {:induction false} SerAllLeaves(g: Graph, lim: Limits, cs: seq<Child>, rem: int, depth: int)
    requires rem <= 0 || depth < 0
    ensures var r := SerAll(g, lim, cs, rem, depth); r.DoneAll? ==> r.left == rem - |cs|
    decreases |cs|
  {
    hide Ser;
    if cs != [] {
      var r := Ser(g, lim, cs[0], rem, depth);
      if r.Done? {
        LeafCase(g, lim, cs[0], rem, depth);
        SerAllLeaves(g, lim, cs[1..], r.left, depth);
      }
    }
  }

  lemma {:induction false} SerOverrun(g: Graph, lim: Limits, c: Child, rem: int, depth: int)
    requires rem > 0
    ensures var r := Ser(g, lim, c, rem, depth); r.Done? ==> -r.left <= Overrun(depth, rem)
    decreases Levels(depth), 0
  {
    hide Ser, SerAll, Admitted;
    if Enters(g, c, rem, depth) {
      var kids := Admitted(g[c.value], rem - 1);
      AdmittedLength(g[c.value], rem - 1);
      EnteredCase(g, lim, c, rem, depth);
      if depth == 0 {
        SerAllLeaves(g, lim, kids, rem - 1, depth - 1);
      } else {
        SerAllOverrun(g, lim, kids, rem - 1, depth - 1);
      }
    } else {
      LeafCase(g, lim, c, rem, depth);
    }
  }

  lemma AdmittedLength(o: JavaObject, left: nat)
    requires HasChildren(o)
    ensures |Admitted(o, left)| == Min(|Children(o)|, left)
  {
    hide Children;
  }

  lemma {:induction false} SerAllOverrun(g: Graph, lim: Limits, cs: seq<Child>, rem: int, depth: int)
    requires rem >= 0 && depth >= 0
    ensures var r := SerAll(g, lim, cs, rem, depth);
      r.DoneAll? ==> -r.left <= Overrun(depth, rem) + (if cs == [] then 0 else if rem == 0 then |cs| else |cs| - 1)
    decreases Levels(depth), 1 + |cs|
  {
    hide Ser, Overrun;
    if cs != [] {
      if rem == 0 {
        SerAllLeaves(g, lim, cs, rem, depth);
      } else {
        SerOverrun(g, lim, cs[0], rem, depth);
        SerConserves(g, lim, cs[0], rem, depth);
        var r := Ser(g, lim, cs[0], rem, depth);
        if r.Done? {
          if r.left < 0 {
            SerAllLeaves(g, lim, cs[1..], r.left, depth);
          } else {
            SerAllOverrun(g, lim, cs[1..], r.left, depth);
            OverrunMono(depth, r.left, rem);
          }
        }
      }
    }
  }

  /** The most records a run under the limits can write. */
  function Most(lim: Limits): int {
    if lim.maxElements <= 0 || lim.maxDepth < 0 then 1 else lim.maxElements + Overrun(lim.maxDepth, lim.maxElements)
  }

  /**
    A whole run, on any graph: the final budget is the limit minus the records written, the too-large counter is what
    was written beyond the limit, and no more than Most records are ever written.
    */
  lemma RunBudget(g: Graph, lim: Limits, root: Ref)
    requires lim.maxElements >= 0
    ensures var r := Truncate(g, lim, root); var m := lim.maxElements;
      r.Done? ==>
        && r.left == m - Size(r.tree)
        && r.counts.tooLarge == Max(0, Size(r.tree) - m)
        && Size(r.tree) <= Most(lim) <= Max(1, m + Max(lim.maxDepth, 0) * Max(m - 2, 0))
        && Size(r.tree) <= 1 + (Max(lim.maxDepth, 0) + 2) * m
  {
    hide Ser, SerAll, Overrun;
    var m := lim.maxElements;
    TruncateIs(g, lim, root);
    RunIsWithinMost(g, lim, root);
    if Truncate(g, lim, root).Done? {
      SerConserves(g, lim, Child(None, root), m, lim.maxDepth);
    }
    if m > 0 && lim.maxDepth >= 0 {
      OverrunBound(lim.maxDepth, m);
    }
    Coarser(Max(lim.maxDepth, 0), m);
  }

  lemma Coarser(d: nat, m: nat)
    ensures Max(1, m + d * Max(m - 2, 0)) <= 1 + (d + 2) * m
  {
    assert d * Max(m - 2, 0) <= d * m;
    assert (d + 2) * m == d * m + 2 * m;
  }

  lemma RunIsWithinMost(g: Graph, lim: Limits, root: Ref)
    ensures var r := Truncate(g, lim, root); r.Done? ==> Size(r.tree) <= Most(lim)
  {
    hide Ser, SerAll, Overrun;
    TruncateIs(g, lim, root);
    if Truncate(g, lim, root).Done? {
      SerConserves(g, lim, Child(None, root), lim.maxElements, lim.maxDepth);
      if lim.maxElements > 0 && lim.maxDepth >= 0 {
        SerOverrun(g, lim, Child(None, root), lim.maxElements, lim.maxDepth);
      } else {
        LeafCase(g, lim, Child(None, root), lim.maxElements, lim.maxDepth);
      }
    }
  }

  // ---------------------------------------------------------------- some run does

  /** A list of n elements, each of which is the list itself. */
  function SelfList(n: nat): Graph {
    map[0 := JCollection(seq(n, i => 0))]
  }

  function Copies(n: nat): (cs: seq<Child>)
    ensures |cs| == n && forall i :: 0 <= i < n ==> cs[i] == Child(None, 0)
  {
    seq(n, i => Child(None, 0))
  }

  lemma SelfAdmitted(n: nat, rem: nat)
    requires 1 <= rem <= n + 1
    ensures 0 in SelfList(n) && HasChildren(SelfList(n)[0])
    ensures Admitted(SelfList(n)[0], rem - 1) == Copies(rem - 1)
  {
    var kids := Admitted(SelfList(n)[0], rem - 1);
    assert forall i :: 0 <= i < rem - 1 ==> kids[i] == Child(None, 0);
  }

  lemma SelfLeaf(n: nat, lim: Limits, rem: int, depth: int)
    requires rem <= 0 || depth < 0
    ensures var r := Ser(SelfList(n), lim, Child(None, 0), rem, depth); r.Done? && r.left == rem - 1
  {
    hide SelfList;
  }

  lemma {:induction false} SelfLeaves(n: nat, lim: Limits, k: nat, rem: int, depth: int)
    requires rem <= 0 || depth < 0
    ensures var r := SerAll(SelfList(n), lim, Copies(k), rem, depth); r.DoneAll? && r.left == rem - k
    decreases k
  {
    hide Ser, SelfList;
    if k > 0 {
      SelfLeaf(n, lim, rem, depth);
      SelfLeaves(n, lim, k - 1, rem - 1, depth);
      assert Copies(k)[1..] == Copies(k - 1);
    }
  }

  lemma NamelessCuts(lim: Limits)
    ensures NameCuts(lim, Child(None, 0))
  {
  }

  lemma {:induction false} SelfOverruns(n: nat, lim: Limits, rem: int, depth: int)
    requires 1 <= rem <= n + 1 && depth >= 0
    ensures var r := Ser(SelfList(n), lim, Child(None, 0), rem, depth); r.Done? && r.left == 0 - Overrun(depth, rem)
    decreases Levels(depth), 0
  {
    hide Ser, SerAll, SelfList, Admitted, NameCuts;
    var g := SelfList(n);
    SelfAdmitted(n, rem);
    NamelessCuts(lim);
    EnteredCase(g, lim, Child(None, 0), rem, depth);
    if depth == 0 || rem == 1 {
      SelfLeaves(n, lim, rem - 1, rem - 1, depth - 1);
    } else {
      SelfAllOverrun(n, lim, rem - 1, rem - 1, depth - 1);
    }
  }

  lemma {:induction false} SelfAllOverrun(n: nat, lim: Limits, k: nat, rem: int, depth: int)
    requires 1 <= k && 1 <= rem <= n + 1 && depth >= 0
    ensures var r := SerAll(SelfList(n), lim, Copies(k), rem, depth);
      r.DoneAll? && r.left == 0 - Overrun(depth, rem) - (k - 1)
    decreases Levels(depth), 1
  {
    hide Ser, SelfList, Overrun;
    SelfOverruns(n, lim, rem, depth);
    SelfLeaves(n, lim, k - 1, 0 - Overrun(depth, rem), depth);
    assert Copies(k)[1..] == Copies(k - 1);
  }

  lemma MostIsWritten(lim: Limits)
    ensures var r := Truncate(SelfList(Max(lim.maxElements, 0)), lim, 0); r.Done? && Size(r.tree) == Most(lim)
  {
    hide Ser, SerAll, SelfList, Overrun;
    var n := Max(lim.maxElements, 0);
    TruncateIs(SelfList(n), lim, 0);
    SerConserves(SelfList(n), lim, Child(None, 0), lim.maxElements, lim.maxDepth);
    if lim.maxElements <= 0 || lim.maxDepth < 0 {
      SelfLeaf(n, lim, lim.maxElements, lim.maxDepth);
    } else {
      SelfOverruns(n, lim, lim.maxElements, lim.maxDepth);
    }
  }

  // ---------------------------------------------------------------- the limits that hold

  /** No run under the limits writes more than n records, whatever the input. */
  ghost predicate NeverMoreThan(lim: Limits, n: int) {
    forall g: Graph, root: Ref :: Truncate(g, lim, root).Done? ==> Size(Truncate(g, lim, root).tree) <= n
  }

  /** Most is the least bound on the records of all runs. */
  lemma NeverMoreThanIff(lim: Limits, n: int)
    ensures NeverMoreThan(lim, n) <==> Most(lim) <= n
  {
    hide Truncate, Size, Most, SelfList;
    forall g: Graph, root: Ref ensures Truncate(g, lim, root).Done? ==> Size(Truncate(g, lim, root).tree) <= Most(lim) {
      RunIsWithinMost(g, lim, root);
    }
    MostIsWritten(lim);
  }

  /** The limit on elements is one on records if and only if it is 1 or 2, or positive with no level below the root's. */
  lemma LimitHoldsIff(lim: Limits)
    ensures NeverMoreThan(lim, lim.maxElements) <==>
            lim.maxElements >= 1 && (lim.maxElements <= 2 || lim.maxDepth <= 0)
  {
    hide NeverMoreThan;
    NeverMoreThanIff(lim, lim.maxElements);
  }
}
