/** The element budget of a serialization run, on every object graph, and when nothing is truncated. */
module Budget {
  import opened Common
  import opened Unicode
  import opened WafObjects
  import opened Truncation

  // ---------------------------------------------------------------- conservation

  /** How far below zero a budget is. */
  function Below(n: int): nat {
    if n < 0 then -n else 0
  }

  /** Every node written takes one from the budget, and each one that takes it below zero is counted as too large. */
  lemma {:induction false} SerConserves(g: Graph, lim: Limits, c: Child, rem: int, depth: int)
    ensures var r := Ser(g, lim, c, rem, depth);
      r.Done? ==> Size(r.tree) == rem - r.left && r.counts.tooLarge == Below(r.left) - Below(rem)
    decreases Levels(depth), 0
  {
    hide Ser, SerAll, ContainerKind, Admitted, SizeAll, CutName;
    if Enters(g, c, rem, depth) {
      EnteredCase(g, lim, c, rem, depth);
      SerAllConserves(g, lim, Admitted(g[c.value], rem - 1), rem - 1, depth - 1);
      ContainerKindIs(g[c.value]);
    } else {
      LeafCase(g, lim, c, rem, depth);
      NoEntries();
    }
  }

  lemma NoEntries()
    ensures SizeAll([]) == 0
  {
  }

  lemma ContainerKindIs(o: JavaObject)
    requires HasChildren(o)
    ensures IsContainer(ContainerKind(o))
  {
  }

  lemma {:induction false} SerAllConserves(g: Graph, lim: Limits, cs: seq<Child>, rem: int, depth: int)
    ensures var r := SerAll(g, lim, cs, rem, depth);
      r.DoneAll? ==> SizeAll(r.trees) == rem - r.left && r.counts.tooLarge == Below(r.left) - Below(rem)
    decreases Levels(depth), 1 + |cs|
  {
    hide Ser;
    if cs != [] {
      SerConserves(g, lim, cs[0], rem, depth);
      var r := Ser(g, lim, cs[0], rem, depth);
      if r.Done? {
        SerAllConserves(g, lim, cs[1..], r.left, depth);
      }
    }
  }

  // ---------------------------------------------------------------- nothing truncated

  /** The whole tree below a value, as far as the given depth. */
  function Unfold(g: Graph, c: Child, depth: int): WafObject
    decreases Levels(depth), 0
  {
    var name := NameBytesOf(c.name);
    if depth < 0 then WafObject(name, Map, [])
    else if c.value !in g then WafObject(name, Null, [])
    else if g[c.value].JString? then WafObject(name, Str(Utf16ToUtf8(g[c.value].text)), [])
    else if !HasChildren(g[c.value]) then WafObject(name, ScalarKind(g[c.value]), [])
    else WafObject(name, ContainerKind(g[c.value]), UnfoldAll(g, Children(g[c.value]), depth - 1))
  }

  function UnfoldAll(g: Graph, cs: seq<Child>, depth: int): (r: seq<WafObject>)
    ensures |r| == |cs|
    decreases Levels(depth), 1 + |cs|
  {
    if cs == [] then [] else [Unfold(g, cs[0], depth)] + UnfoldAll(g, cs[1..], depth)
  }

  predicate ShortEnough(s: JavaString, max: int) { |s| <= max && Storable(s) }

  /** No value lies deeper than the given depth, and no name or string is too long. */
  predicate Within(g: Graph, max: int, c: Child, depth: int)
    decreases Levels(depth), 0
  {
    && depth >= 0
    && (c.name.Some? ==> ShortEnough(c.name.value, max))
    && (c.value in g && g[c.value].JString? ==> ShortEnough(g[c.value].text, max))
    && (c.value in g && HasChildren(g[c.value]) ==> WithinAll(g, max, Children(g[c.value]), depth - 1))
  }

  predicate WithinAll(g: Graph, max: int, cs: seq<Child>, depth: int)
    decreases Levels(depth), 1 + |cs|
  {
    cs != [] ==> Within(g, max, cs[0], depth) && WithinAll(g, max, cs[1..], depth)
  }

  /** Within the limits on depth, elements and string sizes, serialization gives the whole tree and counts nothing. */
  lemma {:induction false} SerLossless(g: Graph, lim: Limits, c: Child, rem: int, depth: int)
    requires Within(g, lim.maxStringSize, c, depth) && Size(Unfold(g, c, depth)) <= rem
    ensures var r := Ser(g, lim, c, rem, depth);
      r.Done? && r.tree == Unfold(g, c, depth) && r.left == rem - Size(r.tree) && r.counts == ZERO
    decreases Levels(depth), 0
  {
    hide *;
    if Enters(g, c, rem, depth) {
      EntersIs(g, c, rem, depth);
      UnfoldEntered(g, lim, c, depth);
      var kids := Children(g[c.value]);
      EnteredCase(g, lim, c, rem, depth);
      WholeFits(g, kids, depth - 1);
      AdmitsAll(g[c.value], rem - 1);
      SerAllLossless(g, lim, kids, rem - 1, depth - 1);
      NameUncut(lim, c);
      PlusZero(ZERO);
    } else {
      LeafLossless(g, lim, c, rem, depth);
    }
  }

  lemma EntersIs(g: Graph, c: Child, rem: int, depth: int)
    requires Enters(g, c, rem, depth)
    ensures rem > 0 && depth >= 0 && c.value in g && HasChildren(g[c.value]) && Levels(depth - 1) < Levels(depth)
  {
  }

  lemma WholeFits(g: Graph, cs: seq<Child>, depth: int)
    ensures |cs| <= SizeAll(UnfoldAll(g, cs, depth))
  {
    hide UnfoldAll, SizeAll;
  }

  lemma UnfoldEntered(g: Graph, lim: Limits, c: Child, depth: int)
    requires Within(g, lim.maxStringSize, c, depth) && c.value in g && HasChildren(g[c.value])
    ensures var kids := Children(g[c.value]);
      && Unfold(g, c, depth) == WafObject(NameBytesOf(c.name), ContainerKind(g[c.value]), UnfoldAll(g, kids, depth - 1))
      && Size(Unfold(g, c, depth)) == 1 + SizeAll(UnfoldAll(g, kids, depth - 1))
      && WithinAll(g, lim.maxStringSize, kids, depth - 1)
      && (c.name.Some? ==> ShortEnough(c.name.value, lim.maxStringSize))
  {
    ContainerKindIs(g[c.value]);
    hide UnfoldAll, WithinAll, SizeAll, ContainerKind, Children, NameBytesOf;
  }

  lemma AdmitsAll(o: JavaObject, left: nat)
    requires HasChildren(o)
    ensures |Children(o)| <= left ==> Admitted(o, left) == Children(o)
  {
  }

  lemma NameUncut(lim: Limits, c: Child)
    requires c.name.Some? ==> ShortEnough(c.name.value, lim.maxStringSize)
    ensures NameCuts(lim, c) && CutName(c.name, lim.maxStringSize) == Some(c.name)
    ensures NameCounts(c.name, lim.maxStringSize) == ZERO
  {
  }

  lemma LeafLossless(g: Graph, lim: Limits, c: Child, rem: int, depth: int)
    requires Within(g, lim.maxStringSize, c, depth) && rem > 0 && !Enters(g, c, rem, depth)
    ensures var r := Ser(g, lim, c, rem, depth);
      r.Done? && r.tree == Unfold(g, c, depth) && r.left == rem - 1 && r.counts == ZERO && Size(r.tree) == 1
  {
    hide SerAll, Children, UnfoldAll, WithinAll, Utf16ToUtf8, NameBytesOf, CutName, NameCounts, Counts.Plus;
    NameUncut(lim, c);
    NoEntries();
    PlusZero(ZERO);
  }

  lemma {:induction false} SerAllLossless(g: Graph, lim: Limits, cs: seq<Child>, rem: int, depth: int)
    requires WithinAll(g, lim.maxStringSize, cs, depth) && SizeAll(UnfoldAll(g, cs, depth)) <= rem
    ensures var r := SerAll(g, lim, cs, rem, depth);
      r.DoneAll? && r.trees == UnfoldAll(g, cs, depth) && r.left == rem - SizeAll(r.trees) && r.counts == ZERO
    decreases Levels(depth), 1 + |cs|
  {
    if cs != [] {
      UnfoldAllStep(g, lim, cs, depth);
      hide Ser, SerAll, Within, WithinAll, Unfold, UnfoldAll, Size, SizeAll;
      AllStep(g, lim, cs, rem, depth);
      SerLossless(g, lim, cs[0], rem, depth);
      SerAllLossless(g, lim, cs[1..], rem - Size(Unfold(g, cs[0], depth)), depth);
    }
  }

  lemma UnfoldAllStep(g: Graph, lim: Limits, cs: seq<Child>, depth: int)
    requires cs != [] && WithinAll(g, lim.maxStringSize, cs, depth)
    ensures UnfoldAll(g, cs, depth) == [Unfold(g, cs[0], depth)] + UnfoldAll(g, cs[1..], depth)
    ensures SizeAll(UnfoldAll(g, cs, depth)) == Size(Unfold(g, cs[0], depth)) + SizeAll(UnfoldAll(g, cs[1..], depth))
    ensures Within(g, lim.maxStringSize, cs[0], depth) && WithinAll(g, lim.maxStringSize, cs[1..], depth)
  {
    hide Unfold, Size, Within;
    var es := UnfoldAll(g, cs, depth);
    assert es[1..] == UnfoldAll(g, cs[1..], depth);
  }

  /** A value that fits in a depth has the same tree at every greater depth: the tree is that of the input. */
  lemma {:induction false} UnfoldStable(g: Graph, max: int, c: Child, depth: int)
    requires Within(g, max, c, depth)
    ensures Within(g, max, c, depth + 1) && Unfold(g, c, depth + 1) == Unfold(g, c, depth)
    decreases Levels(depth), 0
  {
    if c.value in g && HasChildren(g[c.value]) {
      UnfoldAllStable(g, max, Children(g[c.value]), depth - 1);
    }
  }

  lemma {:induction false} UnfoldAllStable(g: Graph, max: int, cs: seq<Child>, depth: int)
    requires WithinAll(g, max, cs, depth)
    ensures WithinAll(g, max, cs, depth + 1) && UnfoldAll(g, cs, depth + 1) == UnfoldAll(g, cs, depth)
    decreases Levels(depth), 1 + |cs|
  {
    if cs != [] {
      UnfoldStable(g, max, cs[0], depth);
      UnfoldAllStable(g, max, cs[1..], depth);
    }
  }

  // ---------------------------------------------------------------- depth

  /** However the graph refers to itself, the tree has no more levels than the depth allows, and one for what is cut. */
  lemma {:induction false} SerHeight(g: Graph, lim: Limits, c: Child, rem: int, depth: int)
    ensures var r := Ser(g, lim, c, rem, depth); r.Done? ==> Height(r.tree) <= Levels(depth)
    decreases Levels(depth), 0
  {
    hide Ser, SerAll, ContainerKind, Admitted, HeightAll, CutName;
    if Enters(g, c, rem, depth) {
      EnteredCase(g, lim, c, rem, depth);
      SerAllHeight(g, lim, Admitted(g[c.value], rem - 1), rem - 1, depth - 1);
      assert Levels(depth) == Levels(depth - 1) + 1;
    } else {
      LeafCase(g, lim, c, rem, depth);
    }
  }

  lemma {:induction false} SerAllHeight(g: Graph, lim: Limits, cs: seq<Child>, rem: int, depth: int)
    ensures var r := SerAll(g, lim, cs, rem, depth); r.DoneAll? ==> HeightAll(r.trees) <= Levels(depth)
    decreases Levels(depth), 1 + |cs|
  {
    hide Ser;
    if cs != [] {
      SerHeight(g, lim, cs[0], rem, depth);
      var r := Ser(g, lim, cs[0], rem, depth);
      if r.Done? {
        SerAllHeight(g, lim, cs[1..], r.left, depth);
        var rest := SerAll(g, lim, cs[1..], r.left, depth);
        if rest.DoneAll? {
          HeightStep(r.tree, rest.trees);
        }
      }
    }
  }

  lemma HeightStep(o: WafObject, os: seq<WafObject>)
    ensures HeightAll([o] + os) == Max(Height(o), HeightAll(os))
  {
    assert ([o] + os)[1..] == os;
  }
}
